/**
 * `ExpenseProtocol`: the client's encoding of a record as an ADD_EXPENSE
 * line, and the matching decoder. Fields are joined with '|' in the order
 * command, username, amount, category, date, note.
 */
module ExpenseProtocol {
  import opened Wrappers
  import opened JavaText
  import opened IsoDate
  import opened Expenses

  const Delimiter := '|'
  const AddCommand := "ADD_EXPENSE"

  /** What `parseServerMessage` comes to: null for fewer than five fields,
      one of the two exceptions it lets escape, or a record. */
  datatype Decoded =
    | TooFewFields
      /** `Double.parseDouble` threw NumberFormatException */
    | AmountRejected
      /** `LocalDate.parse` threw DateTimeParseException */
    | DateRejected
    | Decoded(expense: Expense)

  /** `parseServerMessage`: amount from the third field, category from the
      fourth, date from the fifth, note from the sixth if present; the first
      two fields are not looked at. The amount is parsed before the date. */
  function ParseServerMessage(p: Platform, message: string): (r: Decoded)
    ensures |Split(message, Delimiter)| < 5 <==> r == TooFewFields
    ensures var parts := Split(message, Delimiter);
      |parts| >= 5 && p.parseDouble(parts[2]).None? ==> r == AmountRejected
    ensures var parts := Split(message, Delimiter);
      |parts| >= 5 && p.parseDouble(parts[2]).Some? && Parse(parts[4]).None? ==> r == DateRejected
    ensures var parts := Split(message, Delimiter);
      |parts| >= 5 && p.parseDouble(parts[2]).Some? && Parse(parts[4]).Some? ==> r.Decoded?
    ensures r.Decoded? ==>
      var parts := Split(message, Delimiter);
      && Some(r.expense.amount) == p.parseDouble(parts[2])
      && r.expense.category == parts[3]
      && Some(r.expense.date) == Parse(parts[4])
      && r.expense.note == (if |parts| > 5 then parts[5] else "")
  {
    var parts := Split(message, Delimiter);
    if |parts| < 5 then TooFewFields
    else
      match p.parseDouble(parts[2])
      case None => AmountRejected
      case Some(amount) =>
        match Parse(parts[4])
        case None => DateRejected
        case Some(date) =>
          Decoded(Expense(amount, parts[3], date, if |parts| > 5 then parts[5] else ""))
  }

  /** The six pieces of a client message, before joining. */
  function MessagePieces(p: Platform, e: Expense, username: string): seq<string> {
    [AddCommand, username, p.formatAmount(e.amount), e.category, Format(e.date), e.note]
  }

  /** `toServerMessage`: the pieces joined with '|' (written here from the
      last piece back), the amount by the two-decimal formatter and the date
      in ISO form. */
  function ToServerMessage(p: Platform, e: Expense, username: string): (r: string)
    ensures StartsWith(r, AddCommand + [Delimiter])
  {
    var fromDate := Format(e.date) + [Delimiter] + e.note;
    var fromCategory := e.category + [Delimiter] + fromDate;
    var fromAmount := p.formatAmount(e.amount) + [Delimiter] + fromCategory;
    var fromUsername := username + [Delimiter] + fromAmount;
    var r := AddCommand + [Delimiter] + fromUsername;
    assert r[..12] == AddCommand + [Delimiter];
    r
  }

  /** The message is the join of its pieces. */
  lemma MessageIsJoin(p: Platform, e: Expense, username: string)
    ensures ToServerMessage(p, e, username) == Join(MessagePieces(p, e, username), Delimiter)
  {
    var xs := MessagePieces(p, e, username);
    assert Join(xs[5..], Delimiter) == e.note;
    assert xs[4..][1..] == xs[5..];
    assert Join(xs[4..], Delimiter) == Format(e.date) + [Delimiter] + e.note;
    assert xs[3..][1..] == xs[4..];
    assert Join(xs[3..], Delimiter) == e.category + [Delimiter] + Join(xs[4..], Delimiter);
    assert xs[2..][1..] == xs[3..];
    assert Join(xs[2..], Delimiter) == p.formatAmount(e.amount) + [Delimiter] + Join(xs[3..], Delimiter);
    assert xs[1..][1..] == xs[2..];
    assert Join(xs[1..], Delimiter) == username + [Delimiter] + Join(xs[2..], Delimiter);
    assert Join(xs, Delimiter) == AddCommand + [Delimiter] + Join(xs[1..], Delimiter);
  }

  /** True iff no free-text piece of the message contains the delimiter. */
  predicate Unambiguous(p: Platform, e: Expense, username: string) {
    && Delimiter !in username
    && Delimiter !in p.formatAmount(e.amount)
    && Delimiter !in e.category
    && Delimiter !in e.note
  }

  /** The pieces of an unambiguous message are free of the delimiter, and
      the date piece is never empty. */
  lemma PiecesArePlain(p: Platform, e: Expense, username: string)
    requires Unambiguous(p, e, username)
    ensures var xs := MessagePieces(p, e, username);
      && |xs| == 6 && xs[4] != ""
      && forall k :: 0 <= k < |xs| ==> Delimiter !in xs[k]
  {
    var xs := MessagePieces(p, e, username);
    FormatIsPlain(e.date);
    assert xs[4] == Format(e.date);
    forall k | 0 <= k < 6 ensures Delimiter !in xs[k] {
    }
  }

  /** The fields the server and `parseServerMessage` see in an unambiguous
      message: the pieces, except that an empty note disappears with the
      split's trailing empty field. */
  lemma SplitMessage(p: Platform, e: Expense, username: string)
    requires Unambiguous(p, e, username)
    ensures var xs := MessagePieces(p, e, username);
      Split(ToServerMessage(p, e, username), Delimiter) == if e.note == "" then xs[..5] else xs
  {
    var xs := MessagePieces(p, e, username);
    MessageIsJoin(p, e, username);
    PiecesArePlain(p, e, username);
    FieldsJoin(xs, Delimiter);
    assert ToServerMessage(p, e, username)[11] == Delimiter;
    if e.note == "" {
      assert xs[..|xs| - 1] == xs[..5];
      assert DropTrailingEmpty(xs) == DropTrailingEmpty(xs[..5]);
    }
  }

  /** Whatever the username and the texts contain, a client message has at
      least five fields, so it always passes the server's field-count check. */
  lemma MessageHasFiveFields(p: Platform, e: Expense, username: string)
    ensures |Split(ToServerMessage(p, e, username), Delimiter)| >= 5
  {
    var xs := MessagePieces(p, e, username);
    MessageIsJoin(p, e, username);
    FormatIsPlain(e.date);
    JoinKeepsField(xs, Delimiter, 4);
    assert ToServerMessage(p, e, username)[11] == Delimiter;
  }

  /** The fields of an unambiguous message one by one, as `handleAddExpense`
      and `parseServerMessage` read them. */
  lemma MessageFields(p: Platform, e: Expense, username: string)
    requires Unambiguous(p, e, username)
    ensures var parts := Split(ToServerMessage(p, e, username), Delimiter);
      && |parts| >= 5
      && parts[0] == AddCommand && parts[1] == username
      && parts[2] == p.formatAmount(e.amount) && parts[3] == e.category
      && parts[4] == Format(e.date)
      && (if |parts| > 5 then parts[5] else "") == e.note
  {
    var xs := MessagePieces(p, e, username);
    var parts := Split(ToServerMessage(p, e, username), Delimiter);
    SplitMessage(p, e, username);
    if e.note == "" {
      assert parts == xs[..5];
    } else {
      assert parts == xs;
    }
  }

  /** The round trip: decoding the message for a record gives back its
      category, date and note, and as amount whatever the parser reads from
      the formatted amount. */
  lemma ParseToServerMessage(p: Platform, e: Expense, username: string)
    requires Unambiguous(p, e, username)
    ensures ParseServerMessage(p, ToServerMessage(p, e, username)) ==
      match p.parseDouble(p.formatAmount(e.amount))
      case None => AmountRejected
      case Some(amount) => Decoded(e.(amount := amount))
  {
    MessageFields(p, e, username);
    ParseFormat(e.date);
  }

  /** With a formatter the parser reads back exactly, the round trip is the
      identity. */
  lemma ParseToServerMessageExact(p: Platform, e: Expense, username: string)
    requires Unambiguous(p, e, username)
    requires p.parseDouble(p.formatAmount(e.amount)) == Some(e.amount)
    ensures ParseServerMessage(p, ToServerMessage(p, e, username)) == Decoded(e)
  {
    ParseToServerMessage(p, e, username);
  }
}
