/**
 * `ClientHandler`: the server side of one connection. Each request line is
 * split on '|', its first field upper-cased and dispatched; the reply is one
 * line, or for GET_EXPENSES a count line followed by one JSON line per record.
 * A handler step takes the shared store and a line and gives the new store,
 * the reply sent (if any) and whether the loop goes on.
 */
module ClientHandler {
  import opened Wrappers
  import opened JavaText
  import opened IsoDate
  import opened Expenses
  import opened Ledger
  import ExpenseStorage

  const Delimiter := '|'

  const SuccessWord := "SUCCESS"
  /** "SUCCESS|", the start of every success reply. */
  const SuccessTag := SuccessWord + [Delimiter]
  /** "ERROR|", the start of every error reply. */
  const ErrorTag := "ERROR" + [Delimiter]

  const Welcome := "CONNECTION SUCCESSFUL|Connected to Expense Tracker Server"
  const Added := SuccessTag + "Expense added successfully"
  const Goodbye := SuccessTag + "Goodbye"
  const NoExpenses := SuccessTag + "0"
  const BadCommandFormat := ErrorTag + "Invalid command format"
  const BadAddFormat := ErrorTag + "Invalid ADD_EXPENSE format"
  const BadGetFormat := ErrorTag + "Invalid GET_EXPENSES format"
  const BadAmount := ErrorTag + "Invalid amount format"
  const NotPositive := ErrorTag + "Amount must be positive"
  const AddFailedPrefix := ErrorTag + "Failed to add expense: "
  const RetrieveFailedPrefix := ErrorTag + "Failed to retrieve expenses: "
  const UnknownPrefix := ErrorTag + "Unknown command: "

  /** A reply the client treats as success. */
  predicate IsSuccess(response: string) {
    StartsWith(response, SuccessTag)
  }

  /** A reply the client treats as failure. */
  predicate IsError(response: string) {
    StartsWith(response, ErrorTag)
  }

  /** Every reply of the request loop is one or the other. */
  predicate IsReply(response: string) {
    IsSuccess(response) || IsError(response)
  }

  /** A reply never claims both outcomes. */
  lemma SuccessExcludesError(response: string)
    ensures !(IsSuccess(response) && IsError(response))
  {
    assert IsSuccess(response) ==> response[0] == response[..8][0] == 'S';
    assert IsError(response) ==> response[0] == response[..6][0] == 'E';
  }

  /** The fixed success replies. */
  lemma SuccessReplies()
    ensures IsSuccess(Added) && IsSuccess(Goodbye) && IsSuccess(NoExpenses)
  {
    StartsWithAppend(SuccessTag, "Expense added successfully");
    StartsWithAppend(SuccessTag, "Goodbye");
    StartsWithAppend(SuccessTag, "0");
  }

  /** The fixed error replies and error prefixes. */
  lemma ErrorReplies()
    ensures IsError(BadCommandFormat) && IsError(BadAddFormat) && IsError(BadGetFormat)
    ensures IsError(BadAmount) && IsError(NotPositive)
    ensures IsError(AddFailedPrefix) && IsError(RetrieveFailedPrefix) && IsError(UnknownPrefix)
  {
    StartsWithAppend(ErrorTag, "Invalid command format");
    StartsWithAppend(ErrorTag, "Invalid ADD_EXPENSE format");
    StartsWithAppend(ErrorTag, "Invalid GET_EXPENSES format");
    StartsWithAppend(ErrorTag, "Invalid amount format");
    StartsWithAppend(ErrorTag, "Amount must be positive");
    StartsWithAppend(ErrorTag, "Failed to add expense: ");
    StartsWithAppend(ErrorTag, "Failed to retrieve expenses: ");
    StartsWithAppend(ErrorTag, "Unknown command: ");
  }

  /** Prefixing an error text gives an error reply. */
  lemma ErrorPrefixed(prefix: string, text: string)
    requires IsError(prefix)
    ensures IsError(prefix + text)
  {
    assert (prefix + text)[..6] == prefix[..6];
  }

  /** What a command leaves behind: the store and the reply. */
  datatype Reply = Reply(storage: Storage, response: string)

  /** The record an accepted ADD_EXPENSE builds: the note is the sixth field
      when there is one, and empty otherwise; later fields are ignored. */
  function RecordOf(parts: seq<string>, amount: Double, date: ValidDate): Expense
    requires |parts| >= 5
  {
    Expense(amount, parts[3], date, if |parts| > 5 then parts[5] else "")
  }

  /** `handleAddExpense`: the checks in source order (field count, amount
      syntax, date, sign) and, past them, one `addExpense` for the second
      field; a message thrown by its save is reported after the record has
      been stored. */
  function HandleAddExpense(p: Platform, s: Storage, parts: seq<string>): (r: Reply)
    ensures |parts| < 5 ==> r == Reply(s, BadAddFormat)
    ensures |parts| >= 5 && p.parseDouble(parts[2]).None? ==> r == Reply(s, BadAmount)
    ensures |parts| >= 5 && p.parseDouble(parts[2]).Some? && Parse(parts[4]).None? ==>
      r == Reply(s, AddFailedPrefix + p.dateErrorMessage(parts[4]))
    ensures |parts| >= 5 && p.parseDouble(parts[2]).Some? && Parse(parts[4]).Some? ==>
      var amount := p.parseDouble(parts[2]).value;
      if AtMostZero(amount) then r == Reply(s, NotPositive)
      else
        var out := ExpenseStorage.AddExpense(p, s, Some(parts[1]), Some(RecordOf(parts, amount, Parse(parts[4]).value)));
        && r.storage == out.storage
        && (out.thrown.None? ==> r.response == Added)
        && (out.thrown.Some? ==> r.response == AddFailedPrefix + out.thrown.value)
    ensures IsReply(r.response)
    ensures r.storage != s ==> r.response == Added || StartsWith(r.response, AddFailedPrefix)
    ensures Extends(s, r.storage)
  {
    SuccessReplies();
    ErrorReplies();
    if |parts| < 5 then Reply(s, BadAddFormat)
    else
      match p.parseDouble(parts[2])
      case None => Reply(s, BadAmount)
      case Some(amount) =>
        match Parse(parts[4])
        case None =>
          ErrorPrefixed(AddFailedPrefix, p.dateErrorMessage(parts[4]));
          Reply(s, AddFailedPrefix + p.dateErrorMessage(parts[4]))
        case Some(date) =>
          if AtMostZero(amount) then Reply(s, NotPositive)
          else
            var e := RecordOf(parts, amount, date);
            ExpenseStorage.AddExpenseExtends(p, s, Some(parts[1]), Some(e));
            var out := ExpenseStorage.AddExpense(p, s, Some(parts[1]), Some(e));
            match out.thrown
            case None => Reply(out.storage, Added)
            case Some(message) =>
              ErrorPrefixed(AddFailedPrefix, message);
              StartsWithAppend(AddFailedPrefix, message);
              Reply(out.storage, AddFailedPrefix + message)
  }

  /** An accepted add for a non-blank username is acknowledged exactly when
      the user's ledger, the new record included, holds only records Gson
      writes; it is stored either way. */
  lemma AcceptedAddAcknowledged(p: Platform, s: Storage, parts: seq<string>)
    requires |parts| >= 5 && !IsBlank(parts[1])
    requires p.parseDouble(parts[2]).Some? && !AtMostZero(p.parseDouble(parts[2]).value)
    requires Parse(parts[4]).Some?
    ensures var e := RecordOf(parts, p.parseDouble(parts[2]).value, Parse(parts[4]).value);
      var r := HandleAddExpense(p, s, parts);
      && GetExpenses(r.storage, parts[1]) == GetExpenses(s, parts[1]) + [e]
      && (r.response == Added <==>
            SavedPrefix(GetExpenses(s, parts[1])) == GetExpenses(s, parts[1]) && Serializable(e))
  {
    var e := RecordOf(parts, p.parseDouble(parts[2]).value, Parse(parts[4]).value);
    ExpenseStorage.AddExpenseThrows(p, s, Some(parts[1]), Some(e));
    var out := ExpenseStorage.AddExpense(p, s, Some(parts[1]), Some(e));
    if out.thrown.Some? {
      ErrorReplies();
      ErrorPrefixed(AddFailedPrefix, out.thrown.value);
      SuccessReplies();
      SuccessExcludesError(Added);
    }
  }

  /** The first line of a non-empty GET_EXPENSES reply: the record count. */
  function CountLine(n: nat): (r: string)
    ensures IsSuccess(r) && '\n' !in r
    ensures Split(r, Delimiter) == [SuccessWord, NatToString(n)]
  {
    var digits := NatToString(n);
    var r := SuccessTag + digits;
    StartsWithAppend(SuccessTag, digits);
    assert '\n' !in r by {
      forall k | 0 <= k < |r| ensures r[k] != '\n' {
        if k >= 8 { assert r[k] == digits[k - 8]; }
      }
    }
    assert Delimiter !in digits by {
      forall k | 0 <= k < |digits| ensures digits[k] != Delimiter {
        assert IsDigit(digits[k]);
      }
    }
    assert r == Join([SuccessWord, digits], Delimiter);
    SplitJoin([SuccessWord, digits], Delimiter);
    r
  }

  /** `handleGetExpenses`: "SUCCESS|0" for a user without records, otherwise
      the count line and one encoded record per line, newline-terminated and
      then trimmed; encoding stops at the first record Gson refuses, whose
      message is reported instead. The store is only read. */
  function HandleGetExpenses(p: Platform, s: Storage, parts: seq<string>): (r: Reply)
    ensures r.storage == s
    ensures |parts| < 2 ==> r.response == BadGetFormat
    ensures |parts| >= 2 && GetExpenses(s, parts[1]) == [] ==> r.response == NoExpenses
    ensures |parts| >= 2 ==>
      var es := GetExpenses(s, parts[1]);
      var saved := SavedPrefix(es);
      saved != es ==> r.response == RetrieveFailedPrefix + p.toJsonErrorMessage(es[|saved|].amount)
    ensures |parts| >= 2 ==>
      (IsSuccess(r.response) <==> forall k :: 0 <= k < |GetExpenses(s, parts[1])| ==> Serializable(GetExpenses(s, parts[1])[k]))
    ensures IsReply(r.response)
  {
    ErrorReplies();
    SuccessReplies();
    if |parts| < 2 then Reply(s, BadGetFormat)
    else
      var expenses := GetExpenses(s, parts[1]);
      var saved := SavedPrefix(expenses);
      SavedPrefixWhole(expenses);
      if expenses == [] then Reply(s, NoExpenses)
      else if saved != expenses then
        var message := p.toJsonErrorMessage(expenses[|saved|].amount);
        ErrorPrefixed(RetrieveFailedPrefix, message);
        SuccessExcludesError(RetrieveFailedPrefix + message);
        Reply(s, RetrieveFailedPrefix + message)
      else
        var built := CountLine(|expenses|) + "\n" + Terminated(EncodeLedger(p, expenses));
        var response := Trim(built);
        assert TrimStart(built) == built;
        assert !IsTrimmable(built[7]);
        assert |response| >= 8 && response[..8] == built[..8];
        Reply(s, response)
  }

  /** The lines of a non-empty GET_EXPENSES reply, as the client splits it on
      '\n': the count line, then each record's JSON in ledger order. Needs
      records Gson writes, each as a single line ending visibly. */
  lemma GetExpensesReplyLines(p: Platform, s: Storage, parts: seq<string>)
    requires |parts| >= 2 && GetExpenses(s, parts[1]) != []
    requires var es := GetExpenses(s, parts[1]);
      forall k :: 0 <= k < |es| ==> Serializable(es[k]) && OneLine(p, es[k])
    ensures var es := GetExpenses(s, parts[1]);
      var lines := [CountLine(|es|)] + EncodeLedger(p, es);
      && HandleGetExpenses(p, s, parts).response == Join(lines, '\n')
      && Fields(HandleGetExpenses(p, s, parts).response, '\n') == lines
  {
    var es := GetExpenses(s, parts[1]);
    var encoded := EncodeLedger(p, es);
    var head := CountLine(|es|);
    var lines := [head] + encoded;
    var built := head + "\n" + Terminated(encoded);
    SavedPrefixWhole(es);
    TerminatedIsJoin(encoded);
    assert lines[1..] == encoded;
    var joined := Join(lines, '\n');
    assert joined == head + "\n" + Join(encoded, '\n');
    assert built == joined + "\n";
    JoinEndsWithLast(lines, '\n');
    var final := lines[|lines| - 1];
    assert final == p.toJson(es[|es| - 1]);
    assert EndsVisibly(final);
    assert joined[|joined| - 1] == final[|final| - 1];
    assert built[|built| - 2] == joined[|joined| - 1];
    assert built[0] == 'S';
    TrimDropsFinalTerminator(built);
    assert built[..|built| - 1] == joined;
    forall k | 0 <= k < |lines| ensures '\n' !in lines[k] {
      if k > 0 { assert lines[k] == p.toJson(es[k - 1]); }
    }
    FieldsJoin(lines, '\n');
  }

  /** `processCommand`: split the line, upper-case the first field and
      dispatch. Only an accepted ADD_EXPENSE changes the store, and only by
      appending, whether its save succeeds or fails. */
  function ProcessCommand(p: Platform, s: Storage, message: string): (r: Reply)
    ensures Split(message, Delimiter) == [] ==> r == Reply(s, BadCommandFormat)
    ensures Split(message, Delimiter) != [] ==>
      var parts := Split(message, Delimiter);
      var verb := ToUpper(parts[0]);
      && (verb == "ADD_EXPENSE" ==> r == HandleAddExpense(p, s, parts))
      && (verb == "GET_EXPENSES" ==> r == HandleGetExpenses(p, s, parts))
      && (verb == "QUIT" || verb == "EXIT" ==> r == Reply(s, Goodbye))
      && (verb !in {"ADD_EXPENSE", "GET_EXPENSES", "QUIT", "EXIT"} ==> r == Reply(s, UnknownPrefix + verb))
    ensures IsReply(r.response)
    ensures r.storage != s ==> r.response == Added || StartsWith(r.response, AddFailedPrefix)
    ensures Extends(s, r.storage)
  {
    SuccessReplies();
    ErrorReplies();
    var parts := Split(message, Delimiter);
    if |parts| == 0 then Reply(s, BadCommandFormat)
    else
      var verb := ToUpper(parts[0]);
      if verb == "ADD_EXPENSE" then HandleAddExpense(p, s, parts)
      else if verb == "GET_EXPENSES" then HandleGetExpenses(p, s, parts)
      else if verb == "QUIT" || verb == "EXIT" then Reply(s, Goodbye)
      else
        ErrorPrefixed(UnknownPrefix, verb);
        Reply(s, UnknownPrefix + verb)
  }

  /** The command words are their own upper-casings. */
  lemma CommandWordsUpper()
    ensures ToUpper("ADD_EXPENSE") == "ADD_EXPENSE" && ToUpper("GET_EXPENSES") == "GET_EXPENSES"
    ensures ToUpper("QUIT") == "QUIT" && ToUpper("EXIT") == "EXIT"
  {
  }

  /** A line whose first field upper-cases to ADD_EXPENSE goes to
      `handleAddExpense` with all its fields. */
  lemma DispatchAdd(p: Platform, s: Storage, line: string)
    requires Split(line, Delimiter) != [] && ToUpper(Split(line, Delimiter)[0]) == "ADD_EXPENSE"
    ensures ProcessCommand(p, s, line) == HandleAddExpense(p, s, Split(line, Delimiter))
  {
  }

  /** An error reply comes with the store untouched, except for an
      ADD_EXPENSE whose save failed: its record is stored, and the user's
      ledger then holds a record Gson refuses. */
  lemma ErrorKeepsStoreUnlessSaveFails(p: Platform, s: Storage, message: string)
    ensures var r := ProcessCommand(p, s, message);
      IsError(r.response) && r.storage != s ==>
        var parts := Split(message, Delimiter);
        && |parts| >= 5 && ToUpper(parts[0]) == "ADD_EXPENSE"
        && StartsWith(r.response, AddFailedPrefix)
        && |GetExpenses(r.storage, parts[1])| == |GetExpenses(s, parts[1])| + 1
        && SavedPrefix(GetExpenses(r.storage, parts[1])) != GetExpenses(r.storage, parts[1])
  {
    SuccessReplies();
    SuccessExcludesError(Added);
    var r := ProcessCommand(p, s, message);
    var parts := Split(message, Delimiter);
    if IsError(r.response) && r.storage != s {
      assert parts != [] && ToUpper(parts[0]) == "ADD_EXPENSE" && |parts| >= 5;
      var amount := p.parseDouble(parts[2]).value;
      var e := RecordOf(parts, amount, Parse(parts[4]).value);
      var out := ExpenseStorage.AddExpense(p, s, Some(parts[1]), Some(e));
      assert r.storage == out.storage;
      assert out.thrown.Some?;
    }
  }

  /** The case of the command word is irrelevant: two lines whose fields agree
      after the first, and whose first fields agree once upper-cased, get the
      same reply and the same store. */
  lemma VerbCaseIgnored(p: Platform, s: Storage, a: string, b: string)
    requires var pa := Split(a, Delimiter); var pb := Split(b, Delimiter);
      |pa| > 0 && |pb| == |pa| && pa[1..] == pb[1..] && ToUpper(pa[0]) == ToUpper(pb[0])
    ensures ProcessCommand(p, s, a) == ProcessCommand(p, s, b)
  {
    var pa := Split(a, Delimiter);
    var pb := Split(b, Delimiter);
    forall k | 1 <= k < |pa| ensures pa[k] == pb[k] {
      assert pa[k] == pa[1..][k - 1];
      assert pb[k] == pb[1..][k - 1];
    }
    var verb := ToUpper(pa[0]);
    if verb == "ADD_EXPENSE" {
      AddIgnoresVerb(p, s, pa, pb);
    } else if verb == "GET_EXPENSES" {
      assert HandleGetExpenses(p, s, pa) == HandleGetExpenses(p, s, pb);
    }
  }

  /** `handleAddExpense` reads only the fields after the command word. */
  lemma AddIgnoresVerb(p: Platform, s: Storage, pa: seq<string>, pb: seq<string>)
    requires |pb| == |pa| && forall k :: 1 <= k < |pa| ==> pa[k] == pb[k]
    ensures HandleAddExpense(p, s, pa) == HandleAddExpense(p, s, pb)
  {
    if |pa| >= 5 {
      assert pa[1] == pb[1] && pa[2] == pb[2] && pa[4] == pb[4];
      var a := p.parseDouble(pa[2]);
      var d := Parse(pa[4]);
      if a.Some? && d.Some? {
        assert RecordOf(pa, a.value, d.value) == RecordOf(pb, a.value, d.value) by {
          assert pa[3] == pb[3];
          assert |pa| > 5 ==> pa[5] == pb[5];
        }
      }
    }
  }

  /** In particular a command word may be written in any case. */
  lemma CommandWordAnyCase(p: Platform, s: Storage, word: string, rest: string)
    requires word != "" && Delimiter !in word
    ensures ProcessCommand(p, s, word + [Delimiter] + rest) == ProcessCommand(p, s, ToUpper(word) + [Delimiter] + rest)
  {
    ToUpperKeepsOthers(word, Delimiter);
    ToUpperIdempotent(word);
    SplitAfterPlainHead(word, rest, Delimiter);
    SplitAfterPlainHead(ToUpper(word), rest, Delimiter);
    VerbCaseIgnored(p, s, word + [Delimiter] + rest, ToUpper(word) + [Delimiter] + rest);
  }

  /** How the loop goes on after a line. */
  datatype Next =
    | Continue
      /** the line was QUIT or EXIT, ignoring case, and nothing else */
    | Close
      /** `split("\\|")[0]` threw on a line of delimiters only; the session
          ends without a reply */
    | Abort

  /** One turn of the request loop. */
  datatype StepResult = StepResult(storage: Storage, response: Option<string>, next: Next)

  /** True iff the whole line asks to disconnect. */
  predicate AsksToClose(line: string) {
    EqualsIgnoreCase(line, "QUIT") || EqualsIgnoreCase(line, "EXIT")
  }

  /** A line equal to a delimiter-free word up to case is that one field, and
      its upper-casing is the word's. */
  lemma WholeLineWord(line: string, word: string)
    requires EqualsIgnoreCase(line, word) && Delimiter !in word
    ensures Split(line, Delimiter) == [line]
    ensures ToUpper(line) == ToUpper(word)
  {
    EqualsIgnoreCaseIffUpperEqual(line, word);
    ToUpperKeepsOthers(line, Delimiter);
    ToUpperKeepsOthers(word, Delimiter);
  }

  /** A disconnect line is a single visible field whose upper-casing is QUIT
      or EXIT, so it is answered with Goodbye and changes nothing. */
  lemma ClosingLine(p: Platform, s: Storage, line: string)
    requires AsksToClose(line)
    ensures !IsBlank(line)
    ensures Split(line, Delimiter) == [line]
    ensures ProcessCommand(p, s, line) == Reply(s, Goodbye)
  {
    if EqualsIgnoreCase(line, "QUIT") {
      WholeLineWord(line, "QUIT");
    } else {
      WholeLineWord(line, "EXIT");
    }
    assert UpperChar(line[0]) == 'Q' || UpperChar(line[0]) == 'E';
  }

  /** True iff the line is one or more delimiters and nothing else. */
  predicate IsDelimiterRun(line: string) {
    |line| > 0 && forall k :: 0 <= k < |line| ==> line[k] == Delimiter
  }

  /** Exactly the delimiter runs split into no fields, and none is blank. */
  lemma DelimiterRun(line: string)
    ensures Split(line, Delimiter) == [] <==> IsDelimiterRun(line)
    ensures IsDelimiterRun(line) ==> !IsBlank(line)
  {
    SplitEmptyIff(line, Delimiter);
    if IsDelimiterRun(line) {
      assert !IsTrimmable(line[0]);
    }
  }

  /** The body of the loop in `run` for one line read: blank lines are
      skipped, the all-delimiter line crashes the handler, every other line
      gets exactly one reply, and the loop ends after a bare QUIT or EXIT. */
  function Step(p: Platform, s: Storage, line: string): (r: StepResult)
    ensures IsBlank(line) ==> r == StepResult(s, None, Continue)
    ensures r.next == Abort <==> IsDelimiterRun(line)
    ensures r.next == Abort ==> r.storage == s && r.response == None
    ensures !IsBlank(line) && r.next != Abort ==>
      r.response == Some(ProcessCommand(p, s, line).response) && r.storage == ProcessCommand(p, s, line).storage
    ensures r.next == Close <==> AsksToClose(line)
    ensures r.next == Close ==> r.storage == s && r.response == Some(Goodbye)
    ensures r.response.Some? ==> IsReply(r.response.value)
    ensures Extends(s, r.storage)
  {
    DelimiterRun(line);
    if IsBlank(line) then
      StepResult(s, None, Continue)
    else if Split(line, Delimiter) == [] then
      StepResult(s, None, Abort)
    else
      var reply := ProcessCommand(p, s, line);
      if AsksToClose(line) then
        ClosingLine(p, s, line);
        StepResult(reply.storage, Some(reply.response), Close)
      else
        StepResult(reply.storage, Some(reply.response), Continue)
  }

  /** A line that is neither blank, nor all delimiters, nor a bare QUIT or
      EXIT gets the reply of `processCommand`, and the loop goes on. */
  lemma StepOnCommand(p: Platform, s: Storage, line: string)
    requires !IsBlank(line) && !IsDelimiterRun(line) && !AsksToClose(line)
    ensures Step(p, s, line) ==
      StepResult(ProcessCommand(p, s, line).storage, Some(ProcessCommand(p, s, line).response), Continue)
  {
  }

  /** How a session ended. */
  datatype Ending = InputExhausted | ClientQuit | Crashed

  /** The store after a session, the replies sent in order, and the ending. */
  datatype Session = Session(storage: Storage, sent: seq<string>, ending: Ending)

  /** The request loop of `run` over the lines the client sends. */
  function Converse(p: Platform, s: Storage, lines: seq<string>): (r: Session)
    ensures |r.sent| <= |lines|
    ensures forall k :: 0 <= k < |r.sent| ==> IsReply(r.sent[k])
    ensures Extends(s, r.storage)
    decreases |lines|
  {
    if lines == [] then Session(s, [], InputExhausted)
    else
      var step := Step(p, s, lines[0]);
      var out := if step.response.Some? then [step.response.value] else [];
      match step.next
      case Abort => Session(s, [], Crashed)
      case Close => Session(step.storage, out, ClientQuit)
      case Continue =>
        var rest := Converse(p, step.storage, lines[1..]);
        ExtendsTransitive(s, step.storage, rest.storage);
        Session(rest.storage, out + rest.sent, rest.ending)
  }

  /** `run`: the welcome line, then the request loop. */
  function Serve(p: Platform, s: Storage, lines: seq<string>): (r: Session)
    ensures |r.sent| >= 1 && r.sent[0] == Welcome
    ensures r.storage == Converse(p, s, lines).storage && r.ending == Converse(p, s, lines).ending
    ensures r.sent[1..] == Converse(p, s, lines).sent
  {
    var session := Converse(p, s, lines);
    session.(sent := [Welcome] + session.sent)
  }

  /** Once the client has quit or the handler has crashed, nothing more it
      sends is read. */
  lemma {:induction false} NothingReadAfterEnd(p: Platform, s: Storage, lines: seq<string>, more: seq<string>)
    requires Converse(p, s, lines).ending != InputExhausted
    ensures Converse(p, s, lines + more) == Converse(p, s, lines)
    decreases |lines|
  {
    assert lines != [];
    assert (lines + more)[0] == lines[0];
    assert (lines + more)[1..] == lines[1..] + more;
    var step := Step(p, s, lines[0]);
    if step.next == Continue {
      NothingReadAfterEnd(p, step.storage, lines[1..], more);
    }
  }

  /** A session keeps every ledger consistent with its file. */
  lemma {:induction false} ConverseKeepsConsistent(p: Platform, s: Storage, lines: seq<string>)
    requires Consistent(p, s)
    ensures Consistent(p, Converse(p, s, lines).storage)
    decreases |lines|
  {
    if lines != [] {
      var step := Step(p, s, lines[0]);
      StepKeepsConsistent(p, s, lines[0]);
      if step.next == Continue {
        ConverseKeepsConsistent(p, step.storage, lines[1..]);
      }
    }
  }

  /** One step keeps every ledger consistent with its file. */
  lemma StepKeepsConsistent(p: Platform, s: Storage, line: string)
    requires Consistent(p, s)
    ensures Consistent(p, Step(p, s, line).storage)
  {
    if !IsBlank(line) && !IsDelimiterRun(line) {
      CommandKeepsConsistent(p, s, line);
    }
  }

  /** One command keeps every ledger consistent with its file. */
  lemma CommandKeepsConsistent(p: Platform, s: Storage, line: string)
    requires Consistent(p, s)
    ensures Consistent(p, ProcessCommand(p, s, line).storage)
  {
    var parts := Split(line, Delimiter);
    var r := ProcessCommand(p, s, line);
    if parts != [] && ToUpper(parts[0]) == "ADD_EXPENSE" && |parts| >= 5 {
      var a := p.parseDouble(parts[2]);
      var d := Parse(parts[4]);
      if a.Some? && d.Some? && !AtMostZero(a.value) {
        var e := RecordOf(parts, a.value, d.value);
        ExpenseStorage.AddExpenseKeepsConsistent(p, s, Some(parts[1]), Some(e));
        assert r.storage == ExpenseStorage.AddExpense(p, s, Some(parts[1]), Some(e)).storage;
      } else {
        assert r.storage == s;
      }
    } else {
      assert r.storage == s;
    }
  }

  // ---------------------------------------------------------------------------
  // Behaviour on particular lines
  // ---------------------------------------------------------------------------

  /** QUIT with anything after a delimiter ("quit|x", "quit|") is answered
      with Goodbye but does not end the session: the loop tests the whole
      line, not the command word. */
  lemma QuitWithArgumentKeepsSession(p: Platform, s: Storage, rest: string)
    ensures Step(p, s, "quit" + [Delimiter] + rest) == StepResult(s, Some(Goodbye), Continue)
  {
    var line := "quit" + [Delimiter] + rest;
    assert line[0] == 'q';
    assert !IsTrimmable(line[0]) && line[0] != Delimiter;
    assert !AsksToClose(line) by {
      assert |line| > 4;
    }
    SplitAfterPlainHead("quit", rest, Delimiter);
    assert ToUpper("quit") == "QUIT";
    StepOnCommand(p, s, line);
  }

  /** A line of delimiters only ends the session without a reply, whatever
      the client sends after it. */
  lemma DelimiterLineCrashes(p: Platform, s: Storage, more: seq<string>)
    ensures Converse(p, s, ["||"] + more) == Session(s, [], Crashed)
  {
    assert IsDelimiterRun("||");
    assert (["||"] + more)[0] == "||";
  }

  /** A trailing delimiter does not make an empty field: an ADD_EXPENSE whose
      date field is left empty at the end of the line has four fields and is
      rejected. */
  lemma TrailingEmptyFieldRejected(p: Platform, s: Storage, username: string, amount: string, category: string)
    requires Delimiter !in username && Delimiter !in amount && Delimiter !in category && category != ""
    ensures var line := "ADD_EXPENSE" + [Delimiter] + username + [Delimiter] + amount + [Delimiter] + category + [Delimiter];
      && Split(line, Delimiter) == ["ADD_EXPENSE", username, amount, category]
      && ProcessCommand(p, s, line) == Reply(s, BadAddFormat)
  {
    var line := "ADD_EXPENSE" + [Delimiter] + username + [Delimiter] + amount + [Delimiter] + category + [Delimiter];
    var pieces := ["ADD_EXPENSE", username, amount, category, ""];
    var kept := ["ADD_EXPENSE", username, amount, category];
    var j3 := category + [Delimiter];
    var j2 := amount + [Delimiter] + j3;
    var j1 := username + [Delimiter] + j2;
    assert pieces[3..][1..] == [""];
    assert Join(pieces[3..], Delimiter) == j3;
    assert pieces[2..][1..] == pieces[3..];
    assert Join(pieces[2..], Delimiter) == j2;
    assert pieces[1..][1..] == pieces[2..];
    assert Join(pieces[1..], Delimiter) == j1;
    assert Join(pieces, Delimiter) == "ADD_EXPENSE" + [Delimiter] + j1;
    assert line == "ADD_EXPENSE" + [Delimiter] + j1;
    FieldsJoin(pieces, Delimiter);
    assert line[11] == Delimiter;
    assert pieces[..4] == kept;
    assert DropTrailingEmpty(pieces) == kept;
    assert ToUpper("ADD_EXPENSE") == "ADD_EXPENSE";
  }

  /** An amount text that parses to NaN or positive infinity passes the sign
      test and its record is stored, but the save throws on it, so the add is
      answered with the failure message Gson gives for that amount (when the
      user's earlier records were all written). */
  lemma SpecialAmountStoredButRefused(p: Platform, s: Storage, parts: seq<string>)
    requires |parts| >= 5 && Parse(parts[4]).Some? && !IsBlank(parts[1])
    requires p.parseDouble(parts[2]) == Some(NaN) || p.parseDouble(parts[2]) == Some(PositiveInfinity)
    requires SavedPrefix(GetExpenses(s, parts[1])) == GetExpenses(s, parts[1])
    ensures var amount := p.parseDouble(parts[2]).value;
      var r := HandleAddExpense(p, s, parts);
      && GetExpenses(r.storage, parts[1]) == GetExpenses(s, parts[1]) + [RecordOf(parts, amount, Parse(parts[4]).value)]
      && r.response == AddFailedPrefix + p.toJsonErrorMessage(amount)
  {
    var amount := p.parseDouble(parts[2]).value;
    var e := RecordOf(parts, amount, Parse(parts[4]).value);
    var es := GetExpenses(s, parts[1]);
    ExpenseStorage.AddExpenseLedgers(p, s, Some(parts[1]), Some(e));
    SavedPrefixAppend(es, e);
    assert SavedPrefix(es + [e]) == es;
    assert (es + [e])[|es|] == e;
  }

  /** Once a user's ledger holds a record Gson refuses, every later accepted
      add for that (non-blank) user is answered with a failure, though
      stored, and every GET_EXPENSES for that user with a retrieval failure. */
  lemma RefusedRecordPoisonsLedger(p: Platform, s: Storage, parts: seq<string>)
    requires |parts| >= 2 && SavedPrefix(GetExpenses(s, parts[1])) != GetExpenses(s, parts[1])
    ensures StartsWith(HandleGetExpenses(p, s, parts).response, RetrieveFailedPrefix)
    ensures |parts| >= 5 && !IsBlank(parts[1]) && Parse(parts[4]).Some? ==>
      p.parseDouble(parts[2]).Some? && !AtMostZero(p.parseDouble(parts[2]).value) ==>
      var r := HandleAddExpense(p, s, parts);
      && |GetExpenses(r.storage, parts[1])| == |GetExpenses(s, parts[1])| + 1
      && StartsWith(r.response, AddFailedPrefix)
  {
    var es := GetExpenses(s, parts[1]);
    StartsWithAppend(RetrieveFailedPrefix, p.toJsonErrorMessage(es[|SavedPrefix(es)|].amount));
    if |parts| >= 5 && !IsBlank(parts[1]) && Parse(parts[4]).Some? &&
       p.parseDouble(parts[2]).Some? && !AtMostZero(p.parseDouble(parts[2]).value) {
      AcceptedAddAcknowledged(p, s, parts);
    }
  }

  /** A blank username is acknowledged like any other, but the store's guard
      keeps the record out. */
  lemma BlankUserAcknowledgedNotStored(p: Platform, s: Storage, parts: seq<string>)
    requires |parts| >= 5 && IsBlank(parts[1])
    requires p.parseDouble(parts[2]).Some? && !AtMostZero(p.parseDouble(parts[2]).value)
    requires Parse(parts[4]).Some?
    ensures HandleAddExpense(p, s, parts) == Reply(s, Added)
  {
  }

  /** Fields after the sixth never reach the record. */
  lemma ExtraFieldsIgnored(p: Platform, s: Storage, parts: seq<string>, extra: seq<string>)
    requires |parts| == 6
    ensures HandleAddExpense(p, s, parts + extra) == HandleAddExpense(p, s, parts)
  {
    var longer := parts + extra;
    assert longer[1] == parts[1] && longer[2] == parts[2] && longer[3] == parts[3];
    assert longer[4] == parts[4] && longer[5] == parts[5];
  }
}
