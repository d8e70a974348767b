# Multi-user expense tracker: server core in Dafny

This project models the server side of a multi-user expense tracker, and proves properties of that model. The server speaks a line protocol over a socket. Each client connection gets a `ClientHandler`. It reads '|'-separated command lines (`ADD_EXPENSE|user|amount|category|date|note`, `GET_EXPENSES|user`, `QUIT`, `EXIT`) and answers each with a `SUCCESS|…` or `ERROR|…` line. For a listing, the answer is a count line followed by one JSON line per record.

Records live in an `ExpenseStorage`: a map from username to that user's records in append order. After every add, the storage mirrors that user's ledger to `data/<user>.json`, one JSON record per line. At start-up it reloads every `*.json` file of the data directory. The repository holds two copies of `ExpenseStorage`:

- the current one guards `addExpense` against a null or blank username and a null record;
- the legacy one has no guard at all.

`ExpenseProtocol` is the client's encoder for ADD_EXPENSE lines, plus the matching decoder.

## Modules

- `Wrappers`: `Option`.
- `JavaText`: the Java string operations the core relies on, written out. They are:
  - `trim` and `isEmpty`;
  - ASCII `toUpperCase` and `equalsIgnoreCase`;
  - `split("\\|")`, which drops trailing empty fields and returns the whole string when there is no delimiter;
  - `replace`;
  - `Integer.toString` on naturals and `Integer.parseInt`;
  - the newline framing of `println`.
- `IsoDate`: `LocalDate` in ISO form `yyyy-MM-dd`, with years 0000–9999. It proves that `Parse` accepts exactly the strings `Format` produces.
- `Expenses`: the record, `double` amounts (finite, NaN, ±infinity), the rule that Gson writes only records with a finite amount, and `Platform`. `Platform` bundles the library calls the model takes as parameters: `Double.parseDouble`, `String.format("%.2f")`, Gson's `toJson`/`fromJson`, and the message of `LocalDate.parse`'s exception.
- `Ledger`: the state and the operations both storage copies share word for word. These are:
  - `getExpenses`, `getUserCount` and `getTotalExpenseCount`;
  - writing a ledger file, which stops with Gson's exception at the first record with a NaN or infinite amount;
  - `loadUserData` and `loadAllUserData`.
- `ExpenseStorage` and `LegacyExpenseStorage`: `addExpense` and `saveUserData` of each copy.
- `ClientHandler`: the handler's operations:
  - `processCommand`, `handleAddExpense` and `handleGetExpenses`;
  - one turn of the loop in `run` (`Step`);
  - a whole session (`Converse`, and `Serve` with the welcome line).
- `ExpenseProtocol`: `toServerMessage` and `parseServerMessage`.
- `Interop`: the client and the server together. It shows:
  - what the server does with a line the client builds;
  - how the client reads a listing back.

## Behaviour of the code worth knowing

- A blank username passes `handleAddExpense`, and the handler replies `SUCCESS|Expense added successfully`. The current store's guard silently drops the record (`ClientHandler.BlankUserAcknowledgedNotStored`).
- The sign test is `amount <= 0`. So an amount text that parses to NaN or `Infinity` passes it, and the record is appended to the user's ledger.
  - `ExpenseJson` builds its Gson without `serializeSpecialFloatingPointValues` (multi-user-expense-tracker-main/MultiUser-ExpenseTracker/src/common/ExpenseJson.java:16-18, the legacy tree's copy, taken to be the one the current code uses), so `toJson` throws `IllegalArgumentException` on that record inside `saveUserData`.
  - `saveUserData` catches only `IOException`. The exception reaches `handleAddExpense`, which replies `ERROR|Failed to add expense: ` and Gson's message (`ClientHandler.SpecialAmountStoredButRefused`).
  - The writer is closed on the way out, so the file keeps the records before the refused one (`Ledger.WriteLedgerFile`).
  - From then on, every accepted add for that user is stored but answered with the same failure. Every GET_EXPENSES for that user replies `ERROR|Failed to retrieve expenses: ` and the message (`ClientHandler.RefusedRecordPoisonsLedger`). The client shows that as an error and an empty table (`Interop.ClientReadsLedger`).
  - After a restart, that user has only the records written before the refused one (`Ledger.RestartRestores`).
- A bad date is not reported as a format error. The reply is `ERROR|Failed to add expense: ` followed by the parser's message. The date is parsed before the amount's sign is examined, so a bad date with a non-positive amount reports the date.
- Only a line that is exactly `QUIT` or `EXIT`, ignoring case, ends the session. `quit|` followed by anything gets `SUCCESS|Goodbye` and the loop goes on (`ClientHandler.QuitWithArgumentKeepsSession`).
- A non-blank line made only of `|` crashes the loop at `split("\\|")[0]` before any reply (`ClientHandler.DelimiterLineCrashes`).
- Trailing empty fields disappear with `split`. So `ADD_EXPENSE|u|1|Food|`, with its date left empty at the end, has four fields and is rejected as a format error (`ClientHandler.TrailingEmptyFieldRejected`). The client's own message for an empty note loses its last field the same way but keeps five (`ExpenseProtocol.SplitMessage`).
- Which catches are reached:
  - the general `catch (Exception e)` of `handleAddExpense` (lines 128-130) catches a bad date and a save that Gson aborts;
  - that of `handleGetExpenses` (lines 158-160) catches `toJson` failing on a stored NaN or infinite amount;
  - that of `processCommand` (lines 94-97) cannot be reached. Neither handler lets an exception out, and the one other throw, the split at line 44, happens before `processCommand` is called.

## Model

| member | source | states |
|---|---|---|
| JavaText.TrimEmptyIffBlank | MultiUser-ExpenseTracker/src/server/ClientHandler.java:40-42 | `trim().isEmpty()` holds exactly when every character is at most U+0020 |
| JavaText.TrimDropsFinalTerminator | MultiUser-ExpenseTracker/src/server/ClientHandler.java:156 | trimming a text that starts with a visible character and ends with a trimmable one right after a visible one removes just that last character |
| JavaText.Split | MultiUser-ExpenseTracker/src/server/ClientHandler.java:71 | the fields are the text between delimiters, in order, with only trailing empty fields dropped; none contains the delimiter, and a non-empty line never ends in an empty field |
| JavaText.EqualsIgnoreCaseIffUpperEqual | MultiUser-ExpenseTracker/src/server/ClientHandler.java:56 | two strings are equal ignoring case exactly when their upper-casings are equal |
| JavaText.ToUpperIdempotent | MultiUser-ExpenseTracker/src/server/ClientHandler.java:77 | upper-casing twice is upper-casing once |
| JavaText.ToUpperKeepsOthers | MultiUser-ExpenseTracker/src/server/ClientHandler.java:77 | upper-casing neither introduces nor removes a non-letter character such as the delimiter |
| JavaText.SplitEmptyIff | MultiUser-ExpenseTracker/src/server/ClientHandler.java:71-75 | `split` yields no fields exactly when the line is non-empty and all delimiters |
| JavaText.SplitJoin | MultiUser-ExpenseTracker/src/server/ClientHandler.java:71 | splitting the join of delimiter-free fields whose last is non-empty gives those fields back |
| JavaText.SplitAfterPlainHead | MultiUser-ExpenseTracker/src/server/ClientHandler.java:71 | a line that starts with a non-empty, delimiter-free word and a delimiter splits into that word followed by the fields of the rest |
| JavaText.FieldsJoin | MultiUser-ExpenseTracker/src/client/Client.java:441-442 | breaking a join of newline-free lines at its separators gives the lines back |
| JavaText.JoinFields | MultiUser-ExpenseTracker/src/client/Client.java:432 | joining the fields of a string with the separator gives back the string |
| JavaText.FieldsOfConcat | MultiUser-ExpenseTracker/src/common/ExpenseProtocol.java:22 | the fields of `a + sep + b` are the fields of `a` followed by those of `b` |
| JavaText.FieldsArePlain | MultiUser-ExpenseTracker/src/server/ClientHandler.java:71 | no field of a split contains the delimiter |
| JavaText.DropTrailingEmptyAppend | MultiUser-ExpenseTracker/src/server/ClientHandler.java:71 | when a tail keeps a non-empty field, dropping trailing empties from a longer list only touches that tail |
| JavaText.FieldsGrowInFront | MultiUser-ExpenseTracker/src/common/ExpenseProtocol.java:22 | a field and a delimiter put in front of a string add at least one surviving field |
| JavaText.JoinKeepsField | MultiUser-ExpenseTracker/src/common/ExpenseProtocol.java:22 | a non-empty, delimiter-free piece of a join survives the split together with every piece before it |
| JavaText.FieldsAllEmptyIff | MultiUser-ExpenseTracker/src/server/ClientHandler.java:44 | every field is empty exactly when the string consists of separators only |
| JavaText.DropTrailingEmptyKeeps | MultiUser-ExpenseTracker/src/server/ClientHandler.java:71 | dropping trailing empty fields keeps every field up to and including a non-empty one |
| JavaText.RemoveAllAbsent | MultiUser-ExpenseTracker/src/server/ExpenseStorage.java:113 | `replace` without an occurrence leaves the name unchanged |
| JavaText.RemoveAllShortens | MultiUser-ExpenseTracker/src/server/ExpenseStorage.java:113 | `replace` never lengthens a name, and shortens it when the name contains an occurrence |
| JavaText.NatToStringRoundTrip | MultiUser-ExpenseTracker/src/client/Client.java:438 | `Integer.parseInt` of the decimal form of a count gives back the count |
| JavaText.ParseInt | MultiUser-ExpenseTracker/src/client/Client.java:438 | `Integer.parseInt` yields only values in the 32-bit range, and only for a text that starts with a digit or a sign |
| JavaText.ParseIntOfNat | MultiUser-ExpenseTracker/src/client/Client.java:438 | `Integer.parseInt` reads back the decimal form of a natural up to 2^31-1, and throws beyond it |
| JavaText.ParseIntNegative | MultiUser-ExpenseTracker/src/client/Client.java:438 | a leading '-' negates, down to -2^31 and no further |
| JavaText.FirstFieldIsPrefix | MultiUser-ExpenseTracker/src/client/Client.java:423 | the first line read of a reply is a prefix of the reply |
| JavaText.TerminatedIsJoin | MultiUser-ExpenseTracker/src/server/ClientHandler.java:149-151 | appending every line followed by a newline gives the newline join plus a final newline |
| IsoDate.FormatIsPlain | MultiUser-ExpenseTracker/src/common/ExpenseProtocol.java:24 | an ISO date is non-empty and contains neither the delimiter nor a newline |
| IsoDate.Format | MultiUser-ExpenseTracker/src/common/ExpenseProtocol.java:24 | the ISO form of a date is ten characters: four digits, '-', two digits, '-', two digits |
| IsoDate.Parse | MultiUser-ExpenseTracker/src/server/ClientHandler.java:110 | text `LocalDate.parse` accepts is exactly the ISO form of the date it yields |
| IsoDate.ParseIffFormat | MultiUser-ExpenseTracker/src/server/ClientHandler.java:110 | `LocalDate.parse` succeeds on a string exactly when it is the ISO form of the date it returns |
| IsoDate.ParseFormat | MultiUser-ExpenseTracker/src/common/ExpenseProtocol.java:15 | parsing the ISO form of a valid date gives back the date |
| Ledger.TotalExpenseCount | MultiUser-ExpenseTracker/src/server/ExpenseStorage.java:120-124 | the count returned is the sum of the ledger lengths over all users |
| Ledger.SumLengthsUpdate | MultiUser-ExpenseTracker/src/server/ExpenseStorage.java:120-124 | replacing one ledger changes the total count by the change in that ledger's length |
| Ledger.ExpensesForSingleUser | MultiUser-ExpenseTracker/src/server/ExpenseStorage.java:34-39 | when every call names one user, that user's calls are all the calls |
| Ledger.EncodeLedger | MultiUser-ExpenseTracker/src/server/ExpenseStorage.java:63-71 | the lines written are one JSON encoding per record, in ledger order |
| Ledger.DecodeLine | MultiUser-ExpenseTracker/src/server/ExpenseStorage.java:86-91 | a reloaded line is dropped exactly when it is blank or decodes to null |
| Ledger.DecodeLinesAppend | MultiUser-ExpenseTracker/src/server/ExpenseStorage.java:85-92 | decoding two runs of lines is decoding each in turn |
| Ledger.DecodeLines | MultiUser-ExpenseTracker/src/server/ExpenseStorage.java:85-92 | a reload keeps at most one record per line; `DecodeLine` states which lines are kept, and `DecodeEncode` that written lines read back |
| Ledger.DecodeEncode | MultiUser-ExpenseTracker/src/server/ExpenseStorage.java:85-94 | reading back the lines written for a ledger gives back the ledger, when each of its records is written as one line and read back as itself |
| Ledger.DecodeEncodedLine | MultiUser-ExpenseTracker/src/server/ExpenseStorage.java:85-91 | the line written for a record reads back as that record, when the record is written as one line and read back as itself |
| Ledger.DecodeEncodeStep | MultiUser-ExpenseTracker/src/server/ExpenseStorage.java:85-94 | a ledger whose tail reads back from its lines reads back whole |
| Ledger.WriteLedgerFile | MultiUser-ExpenseTracker/src/server/ExpenseStorage.java:58-72 | the map is untouched; the user's file holds the user's records up to the first one Gson refuses, encoded; every other file is unchanged; Gson's message is thrown exactly when some record of the ledger is refused |
| Ledger.SavedPrefix | MultiUser-ExpenseTracker/src/server/ExpenseStorage.java:63-71 | the records written before `toJson` throws are a prefix of the ledger, all with finite amounts, cut only at a record Gson refuses |
| Ledger.SavedPrefixWhole | MultiUser-ExpenseTracker/src/server/ExpenseStorage.java:63-71 | the whole ledger is written exactly when every record in it has a finite amount |
| Ledger.SavedPrefixAppend | MultiUser-ExpenseTracker/src/server/ExpenseStorage.java:63-71 | after appending a record, the written part grows by it exactly when everything before was written and the record has a finite amount; otherwise it stays the same |
| Ledger.EncodeFailure | MultiUser-ExpenseTracker/src/server/ExpenseStorage.java:63-71 | a message is thrown exactly when some record of the ledger is not written |
| Ledger.UserFilePathInjective | MultiUser-ExpenseTracker/src/server/ExpenseStorage.java:58 | distinct usernames write distinct files |
| Ledger.UpdateAndWriteConsistent | MultiUser-ExpenseTracker/src/server/ExpenseStorage.java:34-39 | replacing one ledger and rewriting its file keeps every user's file equal to the encoding of that user's records up to the first refused one |
| Ledger.LoadUserData | MultiUser-ExpenseTracker/src/server/ExpenseStorage.java:79-100 | a readable file replaces the user's ledger by its decoded records, even when there are none; an unreadable one changes nothing; other users are untouched |
| Ledger.LoadFiles | MultiUser-ExpenseTracker/src/server/ExpenseStorage.java:102-118 | loading the listed files never writes to the disk; `LoadFilesOnlyJson` states which ledgers it adds, and `LoadFilesRestores` what they hold |
| Ledger.LoadFilesOnlyJson | MultiUser-ExpenseTracker/src/server/ExpenseStorage.java:102-118 | the load only adds ledgers, each one named after a listed ".json" file with ".json" removed; users without such a file keep their ledger |
| Ledger.RemoveJsonSuffix | MultiUser-ExpenseTracker/src/server/ExpenseStorage.java:113 | removing ".json" from a user's file name is removing it from the username |
| Ledger.UserOfFileNameIff | MultiUser-ExpenseTracker/src/server/ExpenseStorage.java:113 | a user's file reloads under the same username exactly when the username does not contain ".json" |
| Ledger.LoadOneRestores | MultiUser-ExpenseTracker/src/server/ExpenseStorage.java:79-100 | loading a consistently written user file installs that user's records up to the first refused one, when every written record reads back |
| Ledger.LoadFilesRestores | MultiUser-ExpenseTracker/src/server/ExpenseStorage.java:102-118 | loading consistently written files restores, for each listed user, exactly the records before the first one Gson refused |
| Ledger.RestartRestores | MultiUser-ExpenseTracker/src/server/ExpenseStorage.java:15-26 | a fresh storage over a consistent data directory that lists every user's file, in any order, holds each old ledger up to its first refused record, and so the whole old ledgers when no record was refused |
| Ledger.LoadAllUserData | MultiUser-ExpenseTracker/src/server/ExpenseStorage.java:15-26 | a fresh storage leaves the disk as it is and holds a ledger only for a username named by a listed ".json" file with the suffix removed |
| ExpenseStorage.AddExpense | MultiUser-ExpenseTracker/src/server/ExpenseStorage.java:28-43 | at the guard nothing changes and nothing is thrown; otherwise the user's ledger gains the record at its end, its file is rewritten up to the first refused record, that record's message is thrown if there is one, and no other ledger or file changes |
| ExpenseStorage.AddExpenseLedgers | MultiUser-ExpenseTracker/src/server/ExpenseStorage.java:28-39 | the ledgers after an add, in one map expression, for both outcomes of the guard |
| ExpenseStorage.AddExpenseExtends | MultiUser-ExpenseTracker/src/server/ExpenseStorage.java:28-39 | an add never removes or reorders a record, whether or not its save throws: each old ledger is a prefix of the new one |
| ExpenseStorage.AddExpenseThrows | MultiUser-ExpenseTracker/src/server/ExpenseStorage.java:28-72 | an add throws exactly when the guard lets it through and the new record, or one already in the user's ledger, has a NaN or infinite amount |
| ExpenseStorage.GetAfterAdd | MultiUser-ExpenseTracker/src/server/ExpenseStorage.java:28-51 | what each user reads after an add: the old records, plus the new one for the user the add named |
| ExpenseStorage.AddExpenseCounts | MultiUser-ExpenseTracker/src/server/ExpenseStorage.java:28-39 | an accepted add raises the total count by one, and the user count by one exactly for a new user; a refused one changes neither |
| ExpenseStorage.AddExpenseKeepsConsistent | MultiUser-ExpenseTracker/src/server/ExpenseStorage.java:34-39 | every add, a throwing one included, keeps each user's file equal to the encoding of that user's records up to the first refused one |
| ExpenseStorage.AddAllInCallOrder | MultiUser-ExpenseTracker/src/server/ExpenseStorage.java:34-39 | after any sequence of adds, a non-blank user's ledger is the old one followed by exactly that user's records in call order; a blank user's is unchanged |
| ExpenseStorage.AddsForOneUser | MultiUser-ExpenseTracker/src/server/ExpenseStorage.java:34-39 | N adds for one non-blank user leave those N records, in order, at the end of the ledger |
| ExpenseStorage.AddAllKeepsConsistent | MultiUser-ExpenseTracker/src/server/ExpenseStorage.java:28-43 | adds from an empty store keep the store consistent and only create ledgers for usernames that were added for |
| ExpenseStorage.AddAllRecordsAmong | MultiUser-ExpenseTracker/src/server/ExpenseStorage.java:28-39 | adds from an empty store store only the records the calls passed |
| ExpenseStorage.AddAllThenRestart | MultiUser-ExpenseTracker/src/server/ExpenseStorage.java:102-118 | a store built by adds survives a restart when every record with a finite amount reads back, no username contains ".json" and the directory lists exactly the written files: each ledger comes back up to its first refused record, and whole when no call had a NaN or infinite amount |
| LegacyExpenseStorage.AddExpense | multi-user-expense-tracker-main/MultiUser-ExpenseTracker/src/server/ExpenseStorage.java:28-36 | any username, blank or not, gets the record at the end of its ledger and its file rewritten up to the first refused record, whose message is thrown; nothing else changes |
| LegacyExpenseStorage.AddExpenseLedgers | multi-user-expense-tracker-main/MultiUser-ExpenseTracker/src/server/ExpenseStorage.java:28-31 | the ledgers after a legacy add, in one map expression |
| LegacyExpenseStorage.AgreesWithCurrent | multi-user-expense-tracker-main/MultiUser-ExpenseTracker/src/server/ExpenseStorage.java:28-64 | for a non-blank username the legacy add and the current add give the same store and throw the same message |
| LegacyExpenseStorage.BlankUserGetsLedger | multi-user-expense-tracker-main/MultiUser-ExpenseTracker/src/server/ExpenseStorage.java:28-32 | for a blank username the current add changes nothing, while the legacy add gives that username a ledger ending in the record |
| LegacyExpenseStorage.AddExpenseCounts | multi-user-expense-tracker-main/MultiUser-ExpenseTracker/src/server/ExpenseStorage.java:107-115 | every legacy add raises the total count by one, and the user count by one exactly for a new user |
| LegacyExpenseStorage.AddExpenseKeepsConsistent | multi-user-expense-tracker-main/MultiUser-ExpenseTracker/src/server/ExpenseStorage.java:46-64 | every legacy add keeps each user's file equal to the encoding of that user's records up to the first refused one |
| LegacyExpenseStorage.AddAllInCallOrder | multi-user-expense-tracker-main/MultiUser-ExpenseTracker/src/server/ExpenseStorage.java:28-31 | after any sequence of legacy adds, every user's ledger is the old one followed by that user's records in call order |
| ClientHandler.SuccessExcludesError | MultiUser-ExpenseTracker/src/server/ClientHandler.java:50-54 | no reply starts with both SUCCESS and ERROR |
| ClientHandler.HandleAddExpense | MultiUser-ExpenseTracker/src/server/ClientHandler.java:101-131 | each rejection in source order (too few fields, amount syntax, date, sign) leaves the store alone with its own error; past them one add is made for the second field, acknowledged when its save succeeds and answered with `Failed to add expense: ` and the save's message when it throws; the store only grows by appending |
| ClientHandler.AcceptedAddAcknowledged | MultiUser-ExpenseTracker/src/server/ClientHandler.java:113-130 | an accepted add for a non-blank user stores the record, and is acknowledged exactly when the user's ledger with it holds only finite amounts |
| ClientHandler.CountLine | MultiUser-ExpenseTracker/src/server/ClientHandler.java:147 | the count line is a success line without a newline that splits into SUCCESS and the count's decimal form |
| ClientHandler.HandleGetExpenses | MultiUser-ExpenseTracker/src/server/ClientHandler.java:133-161 | the store is only read; too few fields is an error; a user without records gets `SUCCESS\|0`; a ledger holding a NaN or infinite amount gets `Failed to retrieve expenses: ` with Gson's message for the first such record; a well-formed request succeeds exactly when every amount in the ledger is finite |
| ClientHandler.GetExpensesReplyLines | MultiUser-ExpenseTracker/src/server/ClientHandler.java:146-156 | a non-empty listing of writable records, each encoded as one line, broken at newlines, is the count line followed by each record's JSON, in ledger order |
| ClientHandler.ProcessCommand | MultiUser-ExpenseTracker/src/server/ClientHandler.java:69-99 | no fields is a format error; the upper-cased first field selects the handler, Goodbye or the unknown-command error; every reply is SUCCESS or ERROR; only an accepted add changes the store, only by appending, and its reply is the acknowledgement or the add-failure error |
| ClientHandler.DispatchAdd | MultiUser-ExpenseTracker/src/server/ClientHandler.java:77-81 | a line whose first field upper-cases to ADD_EXPENSE goes to `handleAddExpense` with all its fields |
| ClientHandler.ErrorKeepsStoreUnlessSaveFails | MultiUser-ExpenseTracker/src/server/ClientHandler.java:69-131 | an ERROR reply comes with the store unchanged unless it is an ADD_EXPENSE's save failure, which appended one record and left the user's ledger holding one Gson refuses |
| ClientHandler.VerbCaseIgnored | MultiUser-ExpenseTracker/src/server/ClientHandler.java:77 | lines whose fields agree after the first, and whose first fields agree once upper-cased, get the same reply and store |
| ClientHandler.CommandWordAnyCase | MultiUser-ExpenseTracker/src/server/ClientHandler.java:71-77 | writing the command word in any case changes nothing |
| ClientHandler.ClosingLine | MultiUser-ExpenseTracker/src/server/ClientHandler.java:56-59 | a bare QUIT or EXIT, in any case, is a visible single field answered with Goodbye, leaving the store alone |
| ClientHandler.DelimiterRun | MultiUser-ExpenseTracker/src/server/ClientHandler.java:40-44 | a line splits into no fields exactly when it is all delimiters, and such a line is never skipped as blank |
| ClientHandler.Step | MultiUser-ExpenseTracker/src/server/ClientHandler.java:39-60 | a blank line is skipped with no reply; the loop crashes exactly on an all-delimiter line; any other line gets the reply of `processCommand`; the loop ends exactly after a bare QUIT or EXIT |
| ClientHandler.StepOnCommand | MultiUser-ExpenseTracker/src/server/ClientHandler.java:39-60 | a line that is not blank, not all delimiters and not a bare QUIT or EXIT gets the reply of `processCommand`, and the loop goes on |
| ClientHandler.Converse | MultiUser-ExpenseTracker/src/server/ClientHandler.java:39-60 | a session sends at most one reply per line read, every reply is SUCCESS or ERROR, and the store only grows by appending |
| ClientHandler.Serve | MultiUser-ExpenseTracker/src/server/ClientHandler.java:27-60 | the welcome line comes first, followed by the replies of the request loop |
| ClientHandler.NothingReadAfterEnd | MultiUser-ExpenseTracker/src/server/ClientHandler.java:56-59 | once the client has quit or the handler has crashed, later lines change nothing |
| ClientHandler.StepKeepsConsistent | MultiUser-ExpenseTracker/src/server/ClientHandler.java:39-60 | one turn keeps each user's file equal to the encoding of that user's records up to the first refused one |
| ClientHandler.ConverseKeepsConsistent | MultiUser-ExpenseTracker/src/server/ClientHandler.java:39-60 | a whole session keeps each user's file equal to the encoding of that user's records up to the first refused one |
| ClientHandler.QuitWithArgumentKeepsSession | MultiUser-ExpenseTracker/src/server/ClientHandler.java:56-59 | `quit\|` followed by anything is answered with Goodbye and the session goes on |
| ClientHandler.DelimiterLineCrashes | MultiUser-ExpenseTracker/src/server/ClientHandler.java:44 | `\|\|` ends the session with no reply, whatever follows |
| ClientHandler.TrailingEmptyFieldRejected | MultiUser-ExpenseTracker/src/server/ClientHandler.java:102-104 | an ADD_EXPENSE ending in a delimiter after the category splits into four fields and gets the format error, leaving the store alone |
| ClientHandler.SpecialAmountStoredButRefused | MultiUser-ExpenseTracker/src/server/ClientHandler.java:113-130 | an amount parsed as NaN or positive infinity passes the sign test; its record is stored and the reply is `Failed to add expense: ` with Gson's message for that amount |
| ClientHandler.RefusedRecordPoisonsLedger | MultiUser-ExpenseTracker/src/server/ClientHandler.java:101-161 | once a ledger holds a NaN or infinite amount, every GET_EXPENSES for it fails, and every accepted add for that non-blank user fails while still storing its record |
| ClientHandler.BlankUserAcknowledgedNotStored | MultiUser-ExpenseTracker/src/server/ClientHandler.java:117-124 | a blank username is acknowledged and the store is unchanged |
| ClientHandler.ExtraFieldsIgnored | MultiUser-ExpenseTracker/src/server/ClientHandler.java:107-111 | fields after the sixth do not affect the reply or the store |
| ExpenseProtocol.ParseServerMessage | MultiUser-ExpenseTracker/src/common/ExpenseProtocol.java:9-19 | fewer than five fields exactly when the result is null; otherwise an unreadable amount throws first, then an unreadable date, and when both read a record takes its amount, category, date and note from fields three to six |
| ExpenseProtocol.ToServerMessage | MultiUser-ExpenseTracker/src/common/ExpenseProtocol.java:21-25 | the message starts with `ADD_EXPENSE\|`; `MessageFields` states its fields, and `ParseToServerMessage` its decoding |
| ExpenseProtocol.MessageIsJoin | MultiUser-ExpenseTracker/src/common/ExpenseProtocol.java:21-25 | the message is the six pieces joined with '\|' |
| ExpenseProtocol.SplitMessage | MultiUser-ExpenseTracker/src/common/ExpenseProtocol.java:21-25 | with delimiter-free texts the message splits back into its pieces, minus an empty note |
| ExpenseProtocol.PiecesArePlain | MultiUser-ExpenseTracker/src/common/ExpenseProtocol.java:21-25 | with delimiter-free texts, none of the six pieces contains the delimiter and the date piece is non-empty |
| ExpenseProtocol.MessageFields | MultiUser-ExpenseTracker/src/common/ExpenseProtocol.java:9-25 | with delimiter-free texts, the fields of a message are command, username, formatted amount, category, ISO date and, read as `parseServerMessage` does, the note |
| ExpenseProtocol.MessageHasFiveFields | MultiUser-ExpenseTracker/src/common/ExpenseProtocol.java:21-25 | whatever the texts hold, a message has at least five fields |
| ExpenseProtocol.ParseToServerMessage | MultiUser-ExpenseTracker/src/common/ExpenseProtocol.java:9-25 | decoding an encoded record gives back its category, date and note, with the amount the parser reads from the two-decimal form |
| ExpenseProtocol.ParseToServerMessageExact | MultiUser-ExpenseTracker/src/common/ExpenseProtocol.java:9-25 | when the parser reads the formatted amount back exactly, decoding inverts encoding |
| Interop.ClientMessageIsCommand | MultiUser-ExpenseTracker/src/client/Client.java:241-243 | a client message is never blank, never crashes the loop and never closes the session |
| Interop.ServerAcceptsClientMessage | MultiUser-ExpenseTracker/src/server/ClientHandler.java:101-131 | the server turns a client message into the client's record, with the amount read back from its two-decimal form; it refuses an unreadable amount with the amount-format error and a non-positive one; otherwise the record goes to `addExpense` and the reply is the acknowledgement or the save's failure |
| Interop.ClientAddIsAdd | MultiUser-ExpenseTracker/src/client/Client.java:241-243 | the server hands a client message to `handleAddExpense` with all its fields |
| Interop.GetRequest | MultiUser-ExpenseTracker/src/client/Client.java:420 | the listing request starts with `GET_EXPENSES\|`; `GetRequestReply` states that it reaches `handleGetExpenses` with the username |
| Interop.GetRequestReply | MultiUser-ExpenseTracker/src/client/Client.java:420-421 | the client's listing request reaches `handleGetExpenses` with the username |
| Interop.ReadExpenses | MultiUser-ExpenseTracker/src/client/Client.java:423-449 | a reply whose first line does not start with SUCCESS reads as nothing; the client never decodes more records than lines it reads |
| Interop.ReceivedLines | MultiUser-ExpenseTracker/src/client/ClientConnection.java:52-58 | what successive `readLine` calls return for one reply: at least one line, none containing a newline |
| Interop.DecodeEach | MultiUser-ExpenseTracker/src/client/Client.java:441-447 | the client keeps at most one record per line read; `DecodeEachVisible` states that on non-blank lines it decodes as a reload does |
| Interop.DecodeEachVisible | MultiUser-ExpenseTracker/src/client/Client.java:441-447 | on lines none of which is blank, the client's decoding agrees with the server's reload decoding |
| Interop.ReadCountLine | MultiUser-ExpenseTracker/src/client/Client.java:423-438 | the count line passes the SUCCESS test, and its second field parses to the count when that fits in an int |
| Interop.ReadAfterCountLine | MultiUser-ExpenseTracker/src/client/Client.java:432-449 | after a count line the client decodes the first `count` following lines, or all of them when fewer follow, the missing ones reading as null; a count past the int range reads as nothing |
| Interop.ErrorReplyReadsNothing | MultiUser-ExpenseTracker/src/client/Client.java:423-430 | an ERROR reply reads as nothing |
| Interop.ReadNoExpenses | MultiUser-ExpenseTracker/src/client/Client.java:432-449 | `SUCCESS\|0` reads as no records |
| Interop.ReadListing | MultiUser-ExpenseTracker/src/client/Client.java:432-449 | a count line followed by encoded records reads back as those records, when each of them reads back |
| Interop.ClientReadsLedger | MultiUser-ExpenseTracker/src/client/Client.java:420-452 | the client reads the user's exact ledger back from the listing when every record with a finite amount reads back, and nothing when the ledger holds a NaN or infinite amount |
| Interop.QuitEndsSession | MultiUser-ExpenseTracker/src/server/ClientHandler.java:56-59 | a bare QUIT ends the session with Goodbye |
| Interop.ClientAddAppends | MultiUser-ExpenseTracker/src/client/Client.java:241-243 | a client add with an exactly readable positive amount for a non-blank user appends the record, and is acknowledged exactly when the user's ledger with it holds only finite amounts |
| Interop.AddListQuit | MultiUser-ExpenseTracker/src/server/ClientHandler.java:39-60 | when the new record and the user's earlier ones read back, a session of add, list and quit answers acknowledged, the listing and Goodbye, and the client reads the old ledger plus the record from the listing |

## Left out

- Sockets, streams, `cleanup` and all console logging (`System.out`/`System.err`): the model consumes the lines read and produces the replies written.
- `Server.java`, the thread per connection, and the locking in `addExpense`/`getExpenses`: the model runs one handler against the store at a time.
- `Double.parseDouble`, `String.format("%.2f")`, Gson's `toJson`/`fromJson` and the text of `LocalDate.parse`'s exception: these are parameters (`Platform`). The one rule fixed about Gson is that it refuses NaN and infinite amounts (`Serializable`). Where a property needs a record to be written as one line and read back as itself, that is the per-record hypothesis `ReadsBack`.
- ExpenseProtocol.ParseToServerMessage: the amount comes back as whatever the parser reads from the two-decimal form. Exactness holds only when the parser reads the formatted amount back exactly (`ParseToServerMessageExact`), because the model does not describe floating-point rounding.
- `fromJson` throwing `JsonSyntaxException` on malformed JSON: it is a total parameter, `None` where Gson returns null. A throw would abort a reload, or clear the client's table; the model skips the line instead.
- `LocalDate` beyond years 0000–9999 and signed years: `IsoDate` accepts only four-digit years.
- Locale-dependent and non-ASCII case mapping in `toUpperCase`/`equalsIgnoreCase`: only ASCII letters are mapped.
- Null arguments of the legacy copy (a `NullPointerException`, or a null record saved as `null`): the model passes non-null values. The current copy's nulls are `Option.None`.
- The current `saveUserData`'s skip of null records (line 66): records in a ledger are never null in the model, so that null test never fires.
- I/O failures: an unreadable file is `ReadFile` returning `None`, so `loadUserData` leaves the store unchanged. Failed writes and `createDirectories` are not modelled.
- File names containing '/', which would escape the data directory.
- Ledger.RestartRestores, ExpenseStorage.AddAllThenRestart and the predicate `Consistent` take file names to be case-sensitive: the disk is a map keyed by the exact path. On a case-insensitive file system, as Windows and macOS use by default, `Alice` and `alice` have separate ledgers in `userExpenses` but share one file. Each one's save truncates the other's records, and a restart loads that file under one of the two names. There these properties do not hold.
- The `files == null || files.length == 0` early return of `loadAllUserData`: the empty listing loads nothing, which is the same outcome.
- Java `int` overflow of the counts: `getTotalExpenseCount` and `getUserCount` are natural numbers.
- Ledger.UserCount and LegacyExpenseStorage.SaveUserData carry no contract of their own. Their behaviour is stated by `AddExpenseCounts` and by `WriteLedgerFile`.
- Ledger.GetExpenses, ExpenseStorage.SaveUserData and ClientHandler.RecordOf carry no contract of their own; each is a lookup or a constructor call, and a contract would repeat it. Their behaviour is stated by other members:
  - `getExpenses` by `GetAfterAdd` and `AddAllInCallOrder`, against the calls' records (`ExpensesFor`);
  - `saveUserData` by `WriteLedgerFile`, `AddExpenseThrows` and `DecodeEncode`;
  - the record `handleAddExpense` builds by `AcceptedAddAcknowledged` and `ExtraFieldsIgnored`.
- Two successive `getExpenses` calls return equal lists. This is immediate in the functional model, and no lemma states it.
- Interop.ReadExpenses: `Integer.parseInt` also accepts non-ASCII Unicode digits; the model reads ASCII digits only. The lines the server sends hold ASCII digits only.
- Interop.ReadExpenses: a line missing from the reply reads as null (end of stream); a client blocked on a live connection waiting for it is not modelled, and neither is a null first line (connection lost).
- Interop.ReceivedLines breaks a reply at '\n' only, while `readLine` also ends a line at '\r' and at "\r\n". The two agree on the replies the server sends: Gson escapes both characters inside strings (`OneLine` requires neither in a record's encoding), and every other text in a reply comes from a line the server read, which holds no line terminator.
- Interop.ClientReadsLedger and Interop.AddListQuit take the ledger's length to be an int, as the size of a Java list is.
- The current tree's `ExpenseJson.java` is not part of this model. It is taken to be the legacy tree's copy, whose Gson refuses NaN and infinite amounts.
- `Expense.java` is not part of this model. `new Expense(amount, category, date, note)` is taken never to throw, and its getters to return the constructor's arguments: the record is the datatype `Expense`.
- `ClientTest.java`, `Main.java` and the rest of the GUI client: only the client's ADD_EXPENSE and GET_EXPENSES exchanges are modelled (`Interop`).
