/**
 * The expense record and the library calls the core makes but does not
 * define: `Double.parseDouble`, `String.format("%.2f", …)`, and the Gson
 * wrapper `ExpenseJson.toJson` / `ExpenseJson.fromJson`. The calls are
 * function values gathered in a `Platform` that every operation receives,
 * so each property holds whatever the library does, unless its lemma names
 * an assumption about the library explicitly. The one library rule fixed
 * here is which records Gson refuses to write (`Serializable`).
 */
module Expenses {
  import opened Wrappers
  import opened JavaText
  import opened IsoDate

  /** A Java `double` up to rounding: a finite value or one of the special values. */
  datatype Double = Finite(value: real) | NaN | PositiveInfinity | NegativeInfinity

  /** Java's `amount <= 0` on a double; false for NaN, as every comparison with NaN is. */
  predicate AtMostZero(d: Double) {
    match d
    case Finite(v) => v <= 0.0
    case NaN => false
    case PositiveInfinity => false
    case NegativeInfinity => true
  }

  /** One expense: amount, category, calendar date and a possibly empty note. */
  datatype Expense = Expense(amount: Double, category: string, date: ValidDate, note: string)

  /** Gson as `ExpenseJson` builds it (no `serializeSpecialFloatingPointValues`)
      refuses to write NaN and the infinities: `toJson` throws
      IllegalArgumentException for a record with such an amount. */
  predicate Serializable(e: Expense) {
    e.amount.Finite?
  }

  /** The library calls, as the core sees them. */
  datatype Platform = Platform(
    /** `Double.parseDouble`; `None` where it throws NumberFormatException. */
    parseDouble: string -> Option<Double>,
    /** `String.format("%.2f", amount)` in the default locale. */
    formatAmount: Double -> string,
    /** `ExpenseJson.toJson` on a `Serializable` record: one record as JSON.
        Its value on any other record is never used, since the call throws. */
    toJson: Expense -> string,
    /** `getMessage()` of the exception `toJson` throws for a record with
        the given amount that is not `Serializable`. */
    toJsonErrorMessage: Double -> string,
    /** `ExpenseJson.fromJson`; `None` where it returns null. */
    fromJson: string -> Option<Expense>,
    /** `getMessage()` of the exception `LocalDate.parse` throws for a text. */
    dateErrorMessage: string -> string)

  /** Non-empty and ending in a character `trim()` keeps. */
  predicate EndsVisibly(s: string) {
    |s| > 0 && !IsTrimmable(s[|s| - 1])
  }

  /** The encoding of the record is one line that ends in a visible
      character, as Gson's compact output (ending in '}') is. Neither line
      terminator `readLine` knows, '\n' or '\r', occurs in it: Gson escapes
      both inside strings. */
  predicate OneLine(p: Platform, e: Expense) {
    '\n' !in p.toJson(e) && '\r' !in p.toJson(e) && EndsVisibly(p.toJson(e))
  }

  /** The record can be written, its encoding is one line, and decoding
      that line gives the record back: what a save followed by a load, or a
      listing followed by the client's read, needs of each record. */
  predicate ReadsBack(p: Platform, e: Expense) {
    Serializable(e) && OneLine(p, e) && p.fromJson(p.toJson(e)) == Some(e)
  }
}
