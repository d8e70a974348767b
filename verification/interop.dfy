/**
 * The client and the server together: what a message built by
 * `toServerMessage` does on the server, and how the client reads a
 * GET_EXPENSES reply in `loadExpenses` (a SUCCESS line with a count, then up
 * to that many JSON lines).
 */
module Interop {
  import opened Wrappers
  import opened JavaText
  import opened IsoDate
  import opened Expenses
  import opened Ledger
  import ExpenseStorage
  import opened ExpenseProtocol
  import opened ClientHandler

  /** The line the client sends to disconnect. */
  const QuitLine := "QUIT"

  /** The GET_EXPENSES request the client sends for a user. */
  function GetRequest(username: string): (r: string)
    ensures StartsWith(r, "GET_EXPENSES|")
  {
    var r := "GET_EXPENSES" + [ClientHandler.Delimiter] + username;
    assert r[..13] == "GET_EXPENSES|";
    r
  }

  /** A message built by the client is one visible line that neither crashes
      the handler nor asks it to close. */
  lemma ClientMessageIsCommand(p: Platform, e: Expense, username: string)
    ensures var m := ToServerMessage(p, e, username);
      !IsBlank(m) && !IsDelimiterRun(m) && !AsksToClose(m)
  {
    var m := ToServerMessage(p, e, username);
    assert m[0] == 'A' && m[1] == 'D';
    assert !IsTrimmable(m[0]);
    assert UpperChar(m[1]) != UpperChar("QUIT"[1]) && UpperChar(m[1]) != UpperChar("EXIT"[1]);
  }

  /** The server's step on a client ADD_EXPENSE message: with delimiter-free
      texts, the record the server builds is the client's, with the amount the
      server's parser reads from the formatted amount. An amount it cannot
      read is refused, one at most zero too; otherwise the record goes to
      `addExpense`, and the reply says whether its save threw. */
  lemma ServerAcceptsClientMessage(p: Platform, s: Storage, e: Expense, username: string)
    requires Unambiguous(p, e, username)
    ensures var a := p.parseDouble(p.formatAmount(e.amount));
      var r := Step(p, s, ToServerMessage(p, e, username));
      && r.next == Continue
      && (a.None? ==> r == StepResult(s, Some(BadAmount), Continue))
      && (a.Some? && AtMostZero(a.value) ==> r == StepResult(s, Some(NotPositive), Continue))
      && (a.Some? && !AtMostZero(a.value) ==>
            var out := ExpenseStorage.AddExpense(p, s, Some(username), Some(e.(amount := a.value)));
            && r.storage == out.storage
            && (out.thrown.None? ==> r.response == Some(Added))
            && (out.thrown.Some? ==> r.response == Some(AddFailedPrefix + out.thrown.value)))
  {
    var m := ToServerMessage(p, e, username);
    ClientMessageIsCommand(p, e, username);
    StepOnCommand(p, s, m);
    var parts := Split(m, ClientHandler.Delimiter);
    ClientAddIsAdd(p, s, e, username);
    MessageFields(p, e, username);
    ParseFormat(e.date);
    var a := p.parseDouble(p.formatAmount(e.amount));
    if a.Some? {
      assert RecordOf(parts, a.value, e.date) == e.(amount := a.value);
    }
  }

  /** A client message is dispatched to `handleAddExpense`. */
  lemma ClientAddIsAdd(p: Platform, s: Storage, e: Expense, username: string)
    requires Unambiguous(p, e, username)
    ensures var m := ToServerMessage(p, e, username);
      ProcessCommand(p, s, m) == HandleAddExpense(p, s, Split(m, ClientHandler.Delimiter))
  {
    MessageFields(p, e, username);
    CommandWordsUpper();
    DispatchAdd(p, s, ToServerMessage(p, e, username));
  }

  /** The GET_EXPENSES request for a non-empty, delimiter-free username
      reaches `handleGetExpenses` with that username. */
  lemma GetRequestReply(p: Platform, s: Storage, username: string)
    requires username != "" && ClientHandler.Delimiter !in username
    ensures var r := Step(p, s, GetRequest(username));
      r.next == Continue && r.storage == s
      && r.response == Some(HandleGetExpenses(p, s, ["GET_EXPENSES", username]).response)
  {
    var line := GetRequest(username);
    assert line == Join(["GET_EXPENSES", username], ClientHandler.Delimiter);
    SplitJoin(["GET_EXPENSES", username], ClientHandler.Delimiter);
    assert !IsTrimmable(line[0]) && line[0] != ClientHandler.Delimiter;
    assert UpperChar(line[0]) != UpperChar("QUIT"[0]) && UpperChar(line[0]) != UpperChar("EXIT"[0]);
    assert ToUpper("GET_EXPENSES") == "GET_EXPENSES";
  }

  /** The lines the client reads for one reply the server prints: the reply
      broken at its newlines. */
  function ReceivedLines(reply: string): (r: seq<string>)
    ensures |r| >= 1 && forall k :: 0 <= k < |r| ==> '\n' !in r[k]
  {
    FieldsArePlain(reply, '\n');
    Fields(reply, '\n')
  }

  /** The client's decoding of the lines after the count: each is handed to
      `fromJson`, and the records it does not return null for are kept, in
      order. Unlike a reload, blank lines are not skipped first. */
  function DecodeEach(p: Platform, lines: seq<string>): (r: seq<Expense>)
    ensures |r| <= |lines|
    decreases |lines|
  {
    if lines == [] then []
    else
      (if p.fromJson(lines[0]).Some? then [p.fromJson(lines[0]).value] else []) + DecodeEach(p, lines[1..])
  }

  /** On lines none of which is blank the client decodes as a reload does. */
  lemma {:induction false} DecodeEachVisible(p: Platform, lines: seq<string>)
    requires forall k :: 0 <= k < |lines| ==> !IsBlank(lines[k])
    ensures DecodeEach(p, lines) == Ledger.DecodeLines(p, lines)
    decreases |lines|
  {
    if lines != [] {
      assert !IsBlank(lines[0]);
      assert forall k :: 0 <= k < |lines[1..]| ==> lines[1..][k] == lines[k + 1];
      DecodeEachVisible(p, lines[1..]);
    }
  }

  /** The client's reading of a GET_EXPENSES reply in `loadExpenses`: `None`
      (the table is cleared) unless the first line starts with "SUCCESS", has
      a second '|'-field and that field is an int; then the records decoded
      from the next `count` lines, where lines past the end of the reply read
      as null and are skipped, and a count of zero or less reads none. */
  function ReadExpenses(p: Platform, lines: seq<string>): (r: Option<seq<Expense>>)
    requires |lines| >= 1
    ensures !StartsWith(lines[0], SuccessWord) ==> r == None
    ensures r.Some? ==> |r.value| < |lines|
  {
    var head := Split(lines[0], ClientHandler.Delimiter);
    if !StartsWith(lines[0], SuccessWord) || |head| < 2 then None
    else
      match ParseInt(head[1])
      case None => None
      case Some(count) =>
        var available := |lines| - 1;
        var read := if count <= 0 then 0 else if count <= available then count else available;
        Some(DecodeEach(p, lines[1..read + 1]))
  }

  /** The count line starts with "SUCCESS" and its second field reads as the
      count, as long as the count is an int. */
  lemma ReadCountLine(n: nat)
    ensures StartsWith(CountLine(n), SuccessWord)
    ensures var head := Split(CountLine(n), ClientHandler.Delimiter);
      |head| == 2 && ParseInt(head[1]) == if n <= IntMax then Some(n) else None
  {
    ParseIntOfNat(n);
    assert CountLine(n)[..7] == CountLine(n)[..8][..7];
  }

  /** After a count line the client decodes that many of the following lines,
      or all of them when fewer follow. */
  lemma ReadAfterCountLine(p: Platform, n: nat, rest: seq<string>)
    ensures ReadExpenses(p, [CountLine(n)] + rest) ==
      if n > IntMax then None
      else Some(DecodeEach(p, if n <= |rest| then rest[..n] else rest))
  {
    var lines := [CountLine(n)] + rest;
    ReadCountLine(n);
    assert lines[0] == CountLine(n);
    assert lines[1..] == rest;
    if n <= |rest| {
      assert lines[1..n + 1] == rest[..n];
    } else {
      assert lines[1..|rest| + 1] == rest;
    }
  }

  /** The client reads an error reply as nothing: its first line does not
      start with "SUCCESS". */
  lemma ErrorReplyReadsNothing(p: Platform, reply: string)
    requires IsError(reply)
    ensures ReadExpenses(p, ReceivedLines(reply)) == None
  {
    var lines := ReceivedLines(reply);
    FirstFieldIsPrefix(reply, '\n');
    assert reply[0] == ErrorTag[0] == 'E';
    assert |lines[0]| > 0 ==> lines[0][0] == reply[0];
    assert SuccessWord[0] == 'S';
  }

  /** The client reads "SUCCESS|0" as no records. */
  lemma ReadNoExpenses(p: Platform)
    ensures ReceivedLines(NoExpenses) == [NoExpenses]
    ensures ReadExpenses(p, [NoExpenses]) == Some([])
  {
    FieldsOfPlain(NoExpenses, '\n');
    assert NatToString(0) == "0";
    assert NoExpenses == CountLine(0);
    ReadAfterCountLine(p, 0, []);
  }

  /** The client reads a count line followed by encoded records as those
      records, when each of them reads back. */
  lemma ReadListing(p: Platform, es: seq<Expense>)
    requires forall k :: 0 <= k < |es| ==> ReadsBack(p, es[k])
    requires |es| <= IntMax
    ensures ReadExpenses(p, [CountLine(|es|)] + EncodeLedger(p, es)) == Some(es)
  {
    var encoded := EncodeLedger(p, es);
    ReadAfterCountLine(p, |es|, encoded);
    assert encoded[..|es|] == encoded;
    forall k | 0 <= k < |encoded| ensures !IsBlank(encoded[k]) {
      assert encoded[k] == p.toJson(es[k]);
      assert ReadsBack(p, es[k]);
      assert !IsTrimmable(encoded[k][|encoded[k]| - 1]);
    }
    DecodeEachVisible(p, encoded);
    DecodeEncode(p, es);
  }

  /** What the client gets from a GET_EXPENSES reply: exactly the user's
      ledger, in order, when every record in it reads back, and nothing when
      a record in it is one Gson refuses to write. The ledger's length is an
      int, as a Java list's size is. */
  lemma ClientReadsLedger(p: Platform, s: Storage, username: string)
    requires var es := GetExpenses(s, username);
      forall k :: 0 <= k < |es| && Serializable(es[k]) ==> ReadsBack(p, es[k])
    requires |GetExpenses(s, username)| <= IntMax
    ensures var es := GetExpenses(s, username);
      ReadExpenses(p, ReceivedLines(HandleGetExpenses(p, s, ["GET_EXPENSES", username]).response))
        == if SavedPrefix(es) == es then Some(es) else None
  {
    var parts := ["GET_EXPENSES", username];
    var es := GetExpenses(s, username);
    SavedPrefixWhole(es);
    if es == [] {
      ReadNoExpenses(p);
    } else if SavedPrefix(es) == es {
      GetExpensesReplyLines(p, s, parts);
      ReadListing(p, es);
    } else {
      var saved := SavedPrefix(es);
      ErrorReplies();
      ErrorPrefixed(RetrieveFailedPrefix, p.toJsonErrorMessage(es[|saved|].amount));
      ErrorReplyReadsNothing(p, HandleGetExpenses(p, s, parts).response);
    }
  }

  /** A line answered without ending the session puts its reply in front of
      the replies to the rest. */
  lemma AnsweredThenGoesOn(p: Platform, s: Storage, line: string, rest: seq<string>)
    requires Step(p, s, line).next == Continue && Step(p, s, line).response.Some?
    ensures var step := Step(p, s, line);
      var after := Converse(p, step.storage, rest);
      Converse(p, s, [line] + rest) == Session(after.storage, [step.response.value] + after.sent, after.ending)
  {
    assert ([line] + rest)[0] == line && ([line] + rest)[1..] == rest;
  }

  /** A bare QUIT ends the session with Goodbye. */
  lemma QuitEndsSession(p: Platform, s: Storage)
    ensures Converse(p, s, [QuitLine]) == Session(s, [Goodbye], ClientQuit)
  {
    var quit := QuitLine;
    assert AsksToClose(quit);
    assert Step(p, s, quit) == StepResult(s, Some(Goodbye), Close);
  }

  /** Listing and then quitting: the listing reply, then Goodbye. */
  lemma ListThenQuit(p: Platform, s: Storage, username: string)
    requires username != "" && ClientHandler.Delimiter !in username
    ensures Converse(p, s, [GetRequest(username), QuitLine]) ==
      Session(s, [HandleGetExpenses(p, s, ["GET_EXPENSES", username]).response, Goodbye], ClientQuit)
  {
    var lines := [GetRequest(username), QuitLine];
    GetRequestReply(p, s, username);
    QuitEndsSession(p, s);
    assert lines[1..] == [QuitLine];
  }

  /** A session that adds a record, lists and quits, for any add the server
      acknowledges: the acknowledgement, the listing of the store after the
      add, and Goodbye. */
  lemma AddedListedQuit(p: Platform, s: Storage, message: string, after: Storage, username: string)
    requires Step(p, s, message) == StepResult(after, Some(Added), Continue)
    requires username != "" && ClientHandler.Delimiter !in username
    ensures var session := Converse(p, s, [message] + [GetRequest(username), QuitLine]);
      && session.storage == after && session.ending == ClientQuit && |session.sent| == 3
      && session.sent[0] == Added && session.sent[2] == Goodbye
      && session.sent[1] == HandleGetExpenses(p, after, ["GET_EXPENSES", username]).response
  {
    var rest := [GetRequest(username), QuitLine];
    ListThenQuit(p, after, username);
    AnsweredThenGoesOn(p, s, message, rest);
  }

  /** A client message for a positive amount the parser reads back exactly,
      from a non-blank user, appends the record to that user's ledger; it is
      acknowledged exactly when the ledger, the record included, holds only
      records Gson writes. */
  lemma ClientAddAppends(p: Platform, s: Storage, e: Expense, username: string)
    requires Unambiguous(p, e, username) && !IsBlank(username)
    requires p.parseDouble(p.formatAmount(e.amount)) == Some(e.amount) && !AtMostZero(e.amount)
    ensures var r := Step(p, s, ToServerMessage(p, e, username));
      && r.next == Continue
      && GetExpenses(r.storage, username) == GetExpenses(s, username) + [e]
      && (r.response == Some(Added) <==>
            SavedPrefix(GetExpenses(s, username)) == GetExpenses(s, username) && Serializable(e))
  {
    ServerAcceptsClientMessage(p, s, e, username);
    assert e.(amount := e.amount) == e;
    ExpenseStorage.GetAfterAdd(p, s, Some(username), Some(e), username);
    ExpenseStorage.AddExpenseThrows(p, s, Some(username), Some(e));
    var out := ExpenseStorage.AddExpense(p, s, Some(username), Some(e));
    if out.thrown.Some? {
      ErrorReplies();
      ErrorPrefixed(AddFailedPrefix, out.thrown.value);
      SuccessReplies();
      SuccessExcludesError(Added);
    }
  }

  /** A whole session: the client adds a record, lists its expenses and quits.
      When the new record and the user's earlier ones all read back, the
      replies are the acknowledgement, the listing (from which the client
      reads the ledger with the record at its end) and Goodbye. */
  lemma AddListQuit(p: Platform, s: Storage, e: Expense, username: string)
    requires Unambiguous(p, e, username) && !IsBlank(username)
    requires p.parseDouble(p.formatAmount(e.amount)) == Some(e.amount) && !AtMostZero(e.amount)
    requires ReadsBack(p, e)
    requires var es := GetExpenses(s, username);
      (forall k :: 0 <= k < |es| ==> ReadsBack(p, es[k])) && |es| < IntMax
    ensures var session := Converse(p, s, [ToServerMessage(p, e, username)] + [GetRequest(username), QuitLine]);
      && session.ending == ClientQuit
      && |session.sent| == 3
      && session.sent[0] == Added && session.sent[2] == Goodbye
      && ReadExpenses(p, ReceivedLines(session.sent[1])) == Some(GetExpenses(s, username) + [e])
      && GetExpenses(session.storage, username) == GetExpenses(s, username) + [e]
  {
    var es := GetExpenses(s, username);
    ClientAddAppends(p, s, e, username);
    AppendedReadsBack(p, es, e);
    var after := Step(p, s, ToServerMessage(p, e, username)).storage;
    assert username != [];
    AddedListedQuit(p, s, ToServerMessage(p, e, username), after, username);
    ClientReadsLedger(p, after, username);
  }

  /** Appending a record that reads back to records that do keeps a ledger
      whose every record reads back, and which Gson therefore writes whole. */
  lemma AppendedReadsBack(p: Platform, es: seq<Expense>, e: Expense)
    requires forall k :: 0 <= k < |es| ==> ReadsBack(p, es[k])
    requires ReadsBack(p, e)
    ensures forall k :: 0 <= k < |es + [e]| ==> ReadsBack(p, (es + [e])[k])
    ensures SavedPrefix(es) == es && SavedPrefix(es + [e]) == es + [e]
  {
    var ledger := es + [e];
    forall k | 0 <= k < |ledger| ensures ReadsBack(p, ledger[k]) {
      if k < |es| { assert ledger[k] == es[k]; }
    }
    SavedPrefixWhole(es);
    SavedPrefixWhole(ledger);
  }
}
