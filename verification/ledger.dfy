/**
 * The state shared by both copies of `ExpenseStorage` and the operations the
 * two copies have in common: reading a ledger, the two counters, writing a
 * ledger file, and reloading every ledger file at start-up.
 *
 * The in-memory state is a map from username to that user's records in
 * append order. The data directory is a map from file path to the file's
 * lines; the order in which the directory lists its entries is a parameter
 * of the start-up load, since the operating system chooses it.
 *
 * Gson refuses to write a record whose amount is NaN or infinite. The
 * exception leaves `saveUserData` (which catches only IOException) after the
 * records before it have been written, so an operation that saves reports
 * both its effect and the message it throws (`Outcome`).
 */
module Ledger {
  import opened Wrappers
  import opened JavaText
  import opened Expenses

  /** Username to that user's records, oldest first. */
  type Ledgers = map<string, seq<Expense>>

  /** File path to the lines of that file. */
  type Disk = map<string, seq<string>>

  /** Everything an `ExpenseStorage` owns: its map and the files it wrote. */
  datatype Storage = Storage(ledgers: Ledgers, disk: Disk)

  const DataDirectory := "data"
  const JsonSuffix := ".json"

  /** The name of a user's file inside the data directory. */
  function FileName(username: string): string {
    username + JsonSuffix
  }

  /** The path of an entry of the data directory. */
  function PathOf(name: string): string {
    DataDirectory + "/" + name
  }

  /** `DATA_DIRECTORY + "/" + username + ".json"`. */
  function UserFilePath(username: string): string {
    PathOf(FileName(username))
  }

  /** The username a file is loaded under: its name with every ".json" removed. */
  function UserOfFile(name: string): string {
    RemoveAll(name, JsonSuffix)
  }

  // ---------------------------------------------------------------------------
  // Reading
  // ---------------------------------------------------------------------------

  /** `getExpenses`: a copy of the user's records, or no records for a user
      without a ledger. */
  function GetExpenses(s: Storage, username: string): seq<Expense>
  {
    if username in s.ledgers then s.ledgers[username] else []
  }

  /** The second store keeps every ledger of the first as a prefix of its own:
      no record is removed or reordered. */
  predicate Extends(s: Storage, t: Storage) {
    && s.ledgers.Keys <= t.ledgers.Keys
    && forall u :: u in s.ledgers ==> s.ledgers[u] <= t.ledgers[u]
  }

  /** Extension composes. */
  lemma ExtendsTransitive(a: Storage, b: Storage, c: Storage)
    requires Extends(a, b) && Extends(b, c)
    ensures Extends(a, c)
  {
  }

  /** `getUserCount`: the number of usernames with a ledger. */
  function UserCount(s: Storage): nat {
    |s.ledgers|
  }

  /** The sum of the lengths of all ledgers. */
  ghost function SumLengths(m: Ledgers): nat
    decreases |m|
  {
    if m == map[] then 0
    else
      var k := PickKey(m);
      |m[k]| + SumLengths(m - {k})
  }

  /** Some key of a non-empty map. */
  ghost function PickKey(m: Ledgers): (k: string)
    requires m != map[]
    ensures k in m
  {
    var k :| k in m; k
  }

  /** Any key can be taken out of the sum first. */
  lemma {:induction false} SumLengthsRemove(m: Ledgers, k: string)
    requires k in m
    ensures SumLengths(m) == |m[k]| + SumLengths(m - {k})
    decreases |m|
  {
    var j := PickKey(m);
    if j != k {
      var mj := m - {j};
      var mk := m - {k};
      SumLengthsRemove(mj, k);
      SumLengthsRemove(mk, j);
      assert mj - {k} == mk - {j};
    }
  }

  /** Replacing one ledger changes the sum by the difference in its length. */
  lemma SumLengthsUpdate(m: Ledgers, k: string, v: seq<Expense>)
    ensures SumLengths(m[k := v]) + (if k in m then |m[k]| else 0) == SumLengths(m) + |v|
  {
    var m' := m[k := v];
    SumLengthsRemove(m', k);
    if k in m {
      SumLengthsRemove(m, k);
      assert m' - {k} == m - {k};
    } else {
      assert m' - {k} == m;
    }
  }

  /** `getTotalExpenseCount`: the ledger lengths summed over all users, one
      user at a time. */
  method TotalExpenseCount(s: Storage) returns (n: nat)
    ensures n == SumLengths(s.ledgers)
  {
    n := 0;
    var rest := s.ledgers;
    while rest != map[]
      invariant n + SumLengths(rest) == SumLengths(s.ledgers)
      decreases |rest|
    {
      var k :| k in rest;
      SumLengthsRemove(rest, k);
      n := n + |rest[k]|;
      rest := rest - {k};
    }
  }

  // ---------------------------------------------------------------------------
  // Sequences of calls
  // ---------------------------------------------------------------------------

  /** One `addExpense(username, expense)` call with non-null arguments. */
  datatype AddCall = AddCall(username: string, expense: Expense)

  /** The records of the calls made for `username`, in call order. */
  function ExpensesFor(calls: seq<AddCall>, username: string): (r: seq<Expense>)
    ensures |r| <= |calls|
    decreases |calls|
  {
    if calls == [] then []
    else
      var last := calls[|calls| - 1];
      ExpensesFor(calls[..|calls| - 1], username) + (if last.username == username then [last.expense] else [])
  }

  /** When every call is for the same user, that user's records are all of them. */
  lemma {:induction false} ExpensesForSingleUser(calls: seq<AddCall>, username: string)
    requires forall k :: 0 <= k < |calls| ==> calls[k].username == username
    ensures ExpensesFor(calls, username) == seq(|calls|, k requires 0 <= k < |calls| => calls[k].expense)
    decreases |calls|
  {
    if calls != [] {
      ExpensesForSingleUser(calls[..|calls| - 1], username);
    }
  }

  // ---------------------------------------------------------------------------
  // Ledger files
  // ---------------------------------------------------------------------------

  /** A store operation's effect, and the message of the exception it throws
      (`None` when it returns normally). The effect stands either way. */
  datatype Outcome = Outcome(storage: Storage, thrown: Option<string>)

  /** The records of a ledger that get written before Gson refuses one: the
      longest prefix of `Serializable` records. */
  function SavedPrefix(es: seq<Expense>): (r: seq<Expense>)
    ensures r <= es
    ensures forall k :: 0 <= k < |r| ==> Serializable(r[k])
    ensures |r| < |es| ==> !Serializable(es[|r|])
    decreases |es|
  {
    if es == [] || !Serializable(es[0]) then [] else [es[0]] + SavedPrefix(es[1..])
  }

  /** The whole ledger is written exactly when Gson accepts every record. */
  lemma SavedPrefixWhole(es: seq<Expense>)
    ensures SavedPrefix(es) == es <==> forall k :: 0 <= k < |es| ==> Serializable(es[k])
  {
  }

  /** Appending a record: behind a refused record nothing more is written;
      otherwise the new record is written when Gson accepts it. */
  lemma SavedPrefixAppend(es: seq<Expense>, e: Expense)
    ensures SavedPrefix(es + [e]) ==
      if SavedPrefix(es) == es && Serializable(e) then es + [e] else SavedPrefix(es)
  {
    var r := SavedPrefix(es);
    var xs := es + [e];
    var t := SavedPrefix(xs);
    var n := |r|;
    assert forall k :: 0 <= k < |t| ==> t[k] == xs[k];
    assert forall k :: 0 <= k < |es| ==> xs[k] == es[k];
    assert xs[|es|] == e;
    if r == es {
      SavedPrefixWhole(es);
      if Serializable(e) {
        SavedPrefixWhole(xs);
      } else {
        assert |t| == n;
        assert t == xs[..n] == es;
      }
    } else {
      assert forall k :: 0 <= k < n ==> xs[k] == r[k];
      assert |t| == n;
      assert t == xs[..n] == es[..n] == r;
    }
  }

  /** The message the first refused record makes `toJson` throw, or `None`
      when Gson accepts every record. */
  function EncodeFailure(p: Platform, es: seq<Expense>): (r: Option<string>)
    ensures r.None? <==> SavedPrefix(es) == es
  {
    var saved := SavedPrefix(es);
    if saved == es then None else Some(p.toJsonErrorMessage(es[|saved|].amount))
  }

  /** The lines `saveUserData` writes for a ledger: one encoded record per line,
      in ledger order. */
  function EncodeLedger(p: Platform, es: seq<Expense>): (r: seq<string>)
    ensures |r| == |es|
    ensures forall k :: 0 <= k < |es| ==> r[k] == p.toJson(es[k])
    decreases |es|
  {
    if es == [] then [] else [p.toJson(es[0])] + EncodeLedger(p, es[1..])
  }

  /** The records `loadUserData` keeps from a file's lines: those of every
      line that is not blank (`trim().isEmpty()` false, see
      `TrimEmptyIffBlank`) and whose decoding is not null, in file order. */
  function DecodeLines(p: Platform, lines: seq<string>): (r: seq<Expense>)
    ensures |r| <= |lines|
    decreases |lines|
  {
    if lines == [] then []
    else
      var here := if !IsBlank(lines[0]) then p.fromJson(lines[0]) else None;
      (if here.Some? then [here.value] else []) + DecodeLines(p, lines[1..])
  }

  /** Decoding two files' worth of lines is decoding each in turn. */
  lemma {:induction false} DecodeLinesAppend(p: Platform, a: seq<string>, b: seq<string>)
    ensures DecodeLines(p, a + b) == DecodeLines(p, a) + DecodeLines(p, b)
    decreases |a|
  {
    if a == [] {
      assert a + b == b;
    } else {
      var ab := a + b;
      assert ab[0] == a[0];
      assert ab[1..] == a[1..] + b;
      var head := DecodeLines(p, [a[0]]);
      calc {
        DecodeLines(p, ab);
        { DecodeLinesStep(p, ab); }
        head + DecodeLines(p, a[1..] + b);
        { DecodeLinesAppend(p, a[1..], b); }
        head + (DecodeLines(p, a[1..]) + DecodeLines(p, b));
        (head + DecodeLines(p, a[1..])) + DecodeLines(p, b);
        { DecodeLinesStep(p, a); }
        DecodeLines(p, a) + DecodeLines(p, b);
      }
    }
  }

  /** One step of `DecodeLines`: the first line's record, if any, then the rest. */
  lemma DecodeLinesStep(p: Platform, lines: seq<string>)
    requires lines != []
    ensures DecodeLines(p, lines) == DecodeLines(p, [lines[0]]) + DecodeLines(p, lines[1..])
  {
    assert [lines[0]][1..] == [];
  }

  /** A line is dropped on reload exactly when it is blank or decodes to null. */
  lemma DecodeLine(p: Platform, line: string)
    ensures DecodeLines(p, [line]) ==
      if !IsBlank(line) && p.fromJson(line).Some? then [p.fromJson(line).value] else []
  {
  }

  /** An encoded record that reads back is reloaded as itself. */
  lemma DecodeEncodedLine(p: Platform, e: Expense)
    requires ReadsBack(p, e)
    ensures DecodeLines(p, [p.toJson(e)]) == [e]
  {
    var line := p.toJson(e);
    assert !IsTrimmable(line[|line| - 1]);
    DecodeLine(p, line);
  }

  /** Reading back what was written gives the records back, when each of
      them reads back. */
  lemma {:induction false} DecodeEncode(p: Platform, es: seq<Expense>)
    requires forall k :: 0 <= k < |es| ==> ReadsBack(p, es[k])
    ensures DecodeLines(p, EncodeLedger(p, es)) == es
    decreases |es|
  {
    if es != [] {
      assert ReadsBack(p, es[0]);
      assert forall k :: 0 <= k < |es[1..]| ==> es[1..][k] == es[k + 1];
      DecodeEncode(p, es[1..]);
      DecodeEncodeStep(p, es[0], es[1..]);
      assert [es[0]] + es[1..] == es;
    }
  }

  /** The inductive step of `DecodeEncode`: a ledger whose tail reads back
      reads back whole. */
  lemma DecodeEncodeStep(p: Platform, e: Expense, tail: seq<Expense>)
    requires ReadsBack(p, e)
    requires DecodeLines(p, EncodeLedger(p, tail)) == tail
    ensures DecodeLines(p, EncodeLedger(p, [e] + tail)) == [e] + tail
  {
    var es := [e] + tail;
    assert es[0] == e && es[1..] == tail;
    var first := [p.toJson(e)];
    var rest := EncodeLedger(p, tail);
    assert EncodeLedger(p, es) == first + rest;
    DecodeLinesAppend(p, first, rest);
    DecodeEncodedLine(p, e);
  }

  /** What `saveUserData` does once it has decided to write: the user's file is
      opened empty and gets one line per record, in ledger order, until Gson
      refuses a record; the exception then leaves with the lines before it
      flushed. A user without a ledger gets an empty file. */
  function WriteLedgerFile(p: Platform, s: Storage, username: string): (r: Outcome)
    ensures r.storage.ledgers == s.ledgers
    ensures r.storage.disk.Keys == s.disk.Keys + {UserFilePath(username)}
    ensures r.storage.disk[UserFilePath(username)] == EncodeLedger(p, SavedPrefix(GetExpenses(s, username)))
    ensures forall path :: path in s.disk && path != UserFilePath(username) ==> r.storage.disk[path] == s.disk[path]
    ensures r.thrown.None? <==> forall k :: 0 <= k < |GetExpenses(s, username)| ==> Serializable(GetExpenses(s, username)[k])
    ensures r.thrown == EncodeFailure(p, GetExpenses(s, username))
  {
    var es := GetExpenses(s, username);
    SavedPrefixWhole(es);
    Outcome(s.(disk := s.disk[UserFilePath(username) := EncodeLedger(p, SavedPrefix(es))]), EncodeFailure(p, es))
  }

  /** Distinct users write distinct files. */
  lemma UserFilePathInjective(u: string, v: string)
    requires UserFilePath(u) == UserFilePath(v)
    ensures u == v
  {
    var a := UserFilePath(u);
    assert |u| == |v|;
    assert u == a[5..5 + |u|];
  }

  /** Every ledger agrees with its file, as `addExpense` leaves it: the file
      holds the ledger's records up to the first one Gson refuses. */
  ghost predicate Consistent(p: Platform, s: Storage) {
    forall u :: u in s.ledgers ==>
      UserFilePath(u) in s.disk && s.disk[UserFilePath(u)] == EncodeLedger(p, SavedPrefix(s.ledgers[u]))
  }

  /** Replacing one user's ledger and rewriting that user's file keeps every
      ledger consistent with its file. */
  lemma UpdateAndWriteConsistent(p: Platform, s: Storage, u: string, ledger: seq<Expense>)
    requires Consistent(p, s)
    ensures Consistent(p, WriteLedgerFile(p, s.(ledgers := s.ledgers[u := ledger]), u).storage)
  {
    var s' := WriteLedgerFile(p, s.(ledgers := s.ledgers[u := ledger]), u).storage;
    forall v | v in s'.ledgers
      ensures UserFilePath(v) in s'.disk && s'.disk[UserFilePath(v)] == EncodeLedger(p, SavedPrefix(s'.ledgers[v]))
    {
      if v != u {
        if UserFilePath(v) == UserFilePath(u) {
          UserFilePathInjective(v, u);
        }
      }
    }
  }

  // ---------------------------------------------------------------------------
  // Start-up load
  // ---------------------------------------------------------------------------

  /** The lines of a file, or `None` where opening or reading it fails. */
  function ReadFile(disk: Disk, path: string): Option<seq<string>> {
    if path in disk then Some(disk[path]) else None
  }

  /** `loadUserData(username, file)`: the user's ledger becomes the records
      decoded from the file, even when there are none; an unreadable file
      changes nothing. */
  function LoadUserData(p: Platform, s: Storage, username: string, file: Option<seq<string>>): (r: Storage)
    ensures r.disk == s.disk
    ensures file.None? ==> r == s
    ensures file.Some? ==> r.ledgers.Keys == s.ledgers.Keys + {username}
    ensures file.Some? ==> r.ledgers[username] == DecodeLines(p, file.value)
    ensures forall u :: u in s.ledgers && u != username ==> r.ledgers[u] == s.ledgers[u]
  {
    match file
    case None => s
    case Some(lines) => s.(ledgers := s.ledgers[username := DecodeLines(p, lines)])
  }

  /** The body of the loop of `loadAllUserData` over the listed files, one
      listed name at a time, in listing order; names that do not end in
      ".json" are skipped, as the listing filter skips them. */
  function LoadFiles(p: Platform, s: Storage, names: seq<string>): (r: Storage)
    ensures r.disk == s.disk
    decreases |names|
  {
    if names == [] then s
    else
      var before := LoadFiles(p, s, names[..|names| - 1]);
      var name := names[|names| - 1];
      if EndsWith(name, JsonSuffix)
      then LoadUserData(p, before, UserOfFile(name), ReadFile(before.disk, PathOf(name)))
      else before
  }

  /** Only ".json" files are loaded: every username the load adds is the
      name of a listed file ending in ".json" with that suffix removed, and
      ledgers for other usernames are left as they were. */
  lemma {:induction false} LoadFilesOnlyJson(p: Platform, s: Storage, names: seq<string>)
    ensures var r := LoadFiles(p, s, names);
      && s.ledgers.Keys <= r.ledgers.Keys
      && (forall u :: u in r.ledgers && u !in s.ledgers ==>
            (exists k :: 0 <= k < |names| && EndsWith(names[k], JsonSuffix) && UserOfFile(names[k]) == u))
      && (forall u :: u in s.ledgers && (forall k :: 0 <= k < |names| && EndsWith(names[k], JsonSuffix) ==> UserOfFile(names[k]) != u)
            ==> r.ledgers[u] == s.ledgers[u])
    decreases |names|
  {
    if names != [] {
      var init := names[..|names| - 1];
      LoadFilesOnlyJson(p, s, init);
      var before := LoadFiles(p, s, init);
      var r := LoadFiles(p, s, names);
      forall u | u in r.ledgers && u !in s.ledgers
        ensures exists k :: 0 <= k < |names| && EndsWith(names[k], JsonSuffix) && UserOfFile(names[k]) == u
      {
        if u in before.ledgers {
          var k :| 0 <= k < |init| && EndsWith(init[k], JsonSuffix) && UserOfFile(init[k]) == u;
          assert names[k] == init[k];
        } else {
          assert EndsWith(names[|names| - 1], JsonSuffix) && UserOfFile(names[|names| - 1]) == u;
        }
      }
      forall u | u in s.ledgers && (forall k :: 0 <= k < |names| && EndsWith(names[k], JsonSuffix) ==> UserOfFile(names[k]) != u)
        ensures r.ledgers[u] == s.ledgers[u]
      {
        forall k | 0 <= k < |init| && EndsWith(init[k], JsonSuffix)
          ensures UserOfFile(init[k]) != u
        {
          assert names[k] == init[k];
        }
        var last := names[|names| - 1];
        assert EndsWith(last, JsonSuffix) ==> UserOfFile(last) != u;
      }
    }
  }

  /** The state a freshly constructed `ExpenseStorage` holds: an empty map,
      then every ".json" file of the data directory loaded in listing order. */
  function LoadAllUserData(p: Platform, disk: Disk, listing: seq<string>): (r: Storage)
    ensures r.disk == disk
    ensures forall u :: u in r.ledgers ==>
      exists k :: 0 <= k < |listing| && EndsWith(listing[k], JsonSuffix) && UserOfFile(listing[k]) == u
  {
    LoadFilesOnlyJson(p, Storage(map[], disk), listing);
    LoadFiles(p, Storage(map[], disk), listing)
  }

  // ---------------------------------------------------------------------------
  // File names and usernames
  // ---------------------------------------------------------------------------

  /** ".json" cannot overlap itself, so the suffix a save appends is removed
      on load without disturbing the rest of the name. */
  lemma {:induction false} RemoveJsonSuffix(u: string)
    ensures UserOfFile(FileName(u)) == UserOfFile(u)
    decreases |u|
  {
    var j := JsonSuffix;
    var s := u + j;
    if 0 < |u| < 5 {
      JsonSuffixNoOverlap(u);
    }
    if s[..5] == j {
      if |u| >= 5 {
        assert u[..5] == j;
        assert s[5..] == u[5..] + j;
        RemoveJsonSuffix(u[5..]);
      } else if |u| > 0 {
        assert false;
      } else {
        assert s[5..] == [];
      }
    } else {
      assert u != [];
      assert s[1..] == u[1..] + j;
      RemoveJsonSuffix(u[1..]);
      if |u| >= 5 {
        assert u[..5] == s[..5];
      } else {
        assert RemoveAll(u[1..], j) == u[1..];
        assert [u[0]] + u[1..] == u;
      }
    }
  }

  /** A non-empty name shorter than ".json" followed by ".json" does not start
      with ".json", because '.' occurs in ".json" only at its start. */
  lemma JsonSuffixNoOverlap(u: string)
    requires 0 < |u| < 5
    ensures (u + JsonSuffix)[..5] != JsonSuffix
  {
    var s := u + JsonSuffix;
    assert s[|u|] == '.';
    assert JsonSuffix[|u|] != '.';
  }

  /** A user's file is reloaded under the same username exactly when the
      username does not itself contain ".json". */
  lemma UserOfFileNameIff(u: string)
    ensures UserOfFile(FileName(u)) == u <==> !Contains(u, JsonSuffix)
  {
    RemoveJsonSuffix(u);
    RemoveAllShortens(u, JsonSuffix);
    if !Contains(u, JsonSuffix) {
      RemoveAllAbsent(u, JsonSuffix);
    }
  }

  /** The names of the files of the users of `m`. */
  ghost function FileNames(m: Ledgers): set<string> {
    set u | u in m :: FileName(u)
  }

  /** Every listed name is the file of some user of `m`. */
  ghost predicate ListsFilesOf(names: seq<string>, m: Ledgers) {
    forall k :: 0 <= k < |names| ==> names[k] in FileNames(m)
  }

  /** The ledgers of the users of `m` whose files appear in `names`. */
  ghost function Restored(m: Ledgers, names: seq<string>): Ledgers {
    map u | u in m && FileName(u) in names :: m[u]
  }

  /** Listing one more user's file restores that one more ledger. */
  lemma RestoredStep(m: Ledgers, names: seq<string>, u: string)
    requires names != [] && u in m && names[|names| - 1] == FileName(u)
    ensures Restored(m, names) == Restored(m, names[..|names| - 1])[u := m[u]]
  {
    var init := names[..|names| - 1];
    assert names == init + [FileName(u)];
    forall v | v in m
      ensures FileName(v) in names <==> FileName(v) in init || v == u
    {
      if FileName(v) == FileName(u) {
        assert v == FileName(v)[..|v|];
        assert u == FileName(u)[..|u|];
      }
    }
  }

  /** Every record of the ledgers that Gson can write reads back. */
  ghost predicate WritableReadBack(p: Platform, m: Ledgers) {
    forall u, k :: u in m && 0 <= k < |m[u]| && Serializable(m[u][k]) ==> ReadsBack(p, m[u][k])
  }

  /** The ledgers as their files hold them: each one cut before its first
      record Gson refuses. */
  ghost function SavedLedgers(m: Ledgers): Ledgers {
    map u | u in m :: SavedPrefix(m[u])
  }

  /** Loading a user's consistently written file installs the saved part of
      that user's ledger. */
  lemma LoadOneRestores(p: Platform, s: Storage, before: Storage, u: string)
    requires WritableReadBack(p, s.ledgers) && Consistent(p, s) && before.disk == s.disk
    requires u in s.ledgers && !Contains(u, JsonSuffix)
    ensures var name := FileName(u);
      EndsWith(name, JsonSuffix) &&
      LoadUserData(p, before, UserOfFile(name), ReadFile(before.disk, PathOf(name))).ledgers
        == before.ledgers[u := SavedPrefix(s.ledgers[u])]
  {
    UserOfFileNameIff(u);
    var es := s.ledgers[u];
    var saved := SavedPrefix(es);
    forall k | 0 <= k < |saved| ensures ReadsBack(p, saved[k]) {
      assert saved[k] == es[k];
    }
    DecodeEncode(p, saved);
    assert PathOf(FileName(u)) == UserFilePath(u);
  }

  /** Loading files that were written consistently and that belong to
      usernames without ".json" restores exactly the saved part of those
      users' ledgers. */
  lemma {:induction false} LoadFilesRestores(p: Platform, s: Storage, names: seq<string>)
    requires WritableReadBack(p, s.ledgers) && Consistent(p, s)
    requires forall u :: u in s.ledgers ==> !Contains(u, JsonSuffix)
    requires ListsFilesOf(names, s.ledgers)
    ensures LoadFiles(p, Storage(map[], s.disk), names).ledgers == Restored(SavedLedgers(s.ledgers), names)
    decreases |names|
  {
    var m := s.ledgers;
    var saved := SavedLedgers(m);
    if names == [] {
      assert Restored(saved, names) == map[];
    } else {
      var init := names[..|names| - 1];
      assert ListsFilesOf(init, m) by {
        forall k | 0 <= k < |init|
          ensures init[k] in FileNames(m)
        {
          assert init[k] == names[k];
        }
      }
      LoadFilesRestores(p, s, init);
      var before := LoadFiles(p, Storage(map[], s.disk), init);
      var last := |names| - 1;
      assert names[last] in FileNames(m);
      var u :| u in m && names[last] == FileName(u);
      LoadOneRestores(p, s, before, u);
      RestoredStep(saved, names, u);
    }
  }

  /** A restart restores the store up to what Gson refused to write: when
      every ledger agrees with its file, every writable record reads back, no
      username contains ".json", and the data directory lists exactly the
      users' files (in any order), each user gets back the records before its
      first refused one, and so the whole old store when none was refused. */
  lemma RestartRestores(p: Platform, s: Storage, listing: seq<string>)
    requires WritableReadBack(p, s.ledgers) && Consistent(p, s)
    requires forall u :: u in s.ledgers ==> !Contains(u, JsonSuffix)
    requires ListsFilesOf(listing, s.ledgers)
    requires forall u :: u in s.ledgers ==> FileName(u) in listing
    ensures LoadAllUserData(p, s.disk, listing).ledgers == SavedLedgers(s.ledgers)
    ensures (forall u :: u in s.ledgers ==> SavedPrefix(s.ledgers[u]) == s.ledgers[u]) ==>
      LoadAllUserData(p, s.disk, listing).ledgers == s.ledgers
  {
    LoadFilesRestores(p, s, listing);
    RestoredAll(SavedLedgers(s.ledgers), listing);
    SavedLedgersWhole(s.ledgers);
  }

  /** Listing every user's file restores every ledger. */
  lemma RestoredAll(m: Ledgers, names: seq<string>)
    requires forall u :: u in m ==> FileName(u) in names
    ensures Restored(m, names) == m
  {
  }

  /** Nothing is lost to a refused record when there is none. */
  lemma SavedLedgersWhole(m: Ledgers)
    ensures (forall u :: u in m ==> SavedPrefix(m[u]) == m[u]) ==> SavedLedgers(m) == m
  {
  }
}
