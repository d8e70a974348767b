/**
 * Calendar dates in the ISO 8601 extended calendar-date form YYYY-MM-DD
 * (section 4.1.2.2 of ISO 8601:2004), as read and written by
 * `LocalDate.parse(text, ISO_LOCAL_DATE)` and `date.format(ISO_LOCAL_DATE)`
 * for the years 0000 to 9999 of the proleptic Gregorian calendar.
 */
module IsoDate {
  import opened Wrappers
  import opened JavaText

  /** A year, month and day; not necessarily a real date. */
  datatype Date = Date(year: int, month: int, day: int)

  /** Gregorian leap-year rule. */
  predicate IsLeapYear(y: int) {
    y % 4 == 0 && (y % 100 != 0 || y % 400 == 0)
  }

  /** Length of month `m` of year `y`. */
  function DaysInMonth(y: int, m: int): int {
    if m == 2 then (if IsLeapYear(y) then 29 else 28)
    else if m == 4 || m == 6 || m == 9 || m == 11 then 30
    else 31
  }

  /** A real calendar date whose year has four digits. */
  predicate IsValid(d: Date) {
    && 0 <= d.year <= 9999
    && 1 <= d.month <= 12
    && 1 <= d.day <= DaysInMonth(d.year, d.month)
  }

  /** The dates an expense record can carry. */
  type ValidDate = d: Date | IsValid(d) witness Date(1970, 1, 1)

  /** Ten to the power `n`. */
  function Pow10(n: nat): (r: nat)
    ensures r >= 1
  {
    if n == 0 then 1 else 10 * Pow10(n - 1)
  }

  /** `n` written with exactly `width` digits, zero-padded on the left. */
  function Digits(n: nat, width: nat): (r: string)
    requires n < Pow10(width)
    ensures |r| == width && AllDigits(r)
    ensures DecimalValue(r) == n
    decreases width
  {
    if width == 0 then ""
    else
      var r := Digits(n / 10, width - 1) + [DigitChar(n % 10)];
      assert r[..|r| - 1] == Digits(n / 10, width - 1);
      r
  }

  /** The value of `w` digits is below ten to the `w`. */
  lemma {:induction false} DecimalValueBound(s: string)
    requires AllDigits(s)
    ensures DecimalValue(s) < Pow10(|s|)
    decreases |s|
  {
    if s != [] {
      DecimalValueBound(s[..|s| - 1]);
    }
  }

  /** Padding the value of a digit string to its own width gives it back. */
  lemma {:induction false} DigitsOfValue(s: string)
    requires AllDigits(s)
    ensures DecimalValue(s) < Pow10(|s|)
    ensures Digits(DecimalValue(s), |s|) == s
    decreases |s|
  {
    DecimalValueBound(s);
    if s != [] {
      var init := s[..|s| - 1];
      DigitsOfValue(init);
      var d := s[|s| - 1] as int - '0' as int;
      var v := DecimalValue(s);
      assert v == 10 * DecimalValue(init) + d;
      assert v / 10 == DecimalValue(init) && v % 10 == d;
      assert DigitChar(v % 10) == s[|s| - 1];
      assert init + [s[|s| - 1]] == s;
    }
  }

  /** `date.format(ISO_LOCAL_DATE)`: four-digit year, two-digit month and day,
      separated by hyphens. */
  function Format(d: ValidDate): (r: string)
    ensures |r| == 10 && r[4] == '-' && r[7] == '-'
    ensures AllDigits(r[..4]) && AllDigits(r[5..7]) && AllDigits(r[8..])
  {
    var r := Digits(d.year, 4) + "-" + Digits(d.month, 2) + "-" + Digits(d.day, 2);
    assert r[..4] == Digits(d.year, 4);
    assert r[5..7] == Digits(d.month, 2);
    assert r[8..] == Digits(d.day, 2);
    r
  }

  /** `LocalDate.parse(s, ISO_LOCAL_DATE)`, with `None` where it throws: the
      text must be exactly YYYY-MM-DD and name a real date. */
  function Parse(s: string): (r: Option<ValidDate>)
    ensures r.Some? ==> Format(r.value) == s
  {
    if |s| == 10 && s[4] == '-' && s[7] == '-'
       && AllDigits(s[..4]) && AllDigits(s[5..7]) && AllDigits(s[8..])
    then
      var d := Date(DecimalValue(s[..4]), DecimalValue(s[5..7]), DecimalValue(s[8..]));
      if IsValid(d) then
        DigitsOfValue(s[..4]);
        DigitsOfValue(s[5..7]);
        DigitsOfValue(s[8..]);
        assert s == s[..4] + "-" + s[5..7] + "-" + s[8..];
        Some(d)
      else None
    else None
  }

  /** A formatted date contains neither the protocol delimiter nor a line break,
      and is never empty. */
  lemma FormatIsPlain(d: ValidDate)
    ensures |Format(d)| > 0 && '|' !in Format(d) && '\n' !in Format(d)
  {
    var r := Format(d);
    forall k | 0 <= k < |r|
      ensures r[k] != '|' && r[k] != '\n'
    {
      if k < 4 {
        assert r[k] == r[..4][k];
      } else if 4 < k < 7 {
        assert r[k] == r[5..7][k - 5];
      } else if 7 < k {
        assert r[k] == r[8..][k - 8];
      }
    }
  }

  /** Parsing accepts exactly the formatted text of a date, and yields that date. */
  lemma ParseIffFormat(s: string, d: ValidDate)
    ensures Parse(s) == Some(d) <==> Format(d) == s
  {
    ParseFormat(d);
  }

  /** The round trip the client and the JSON adapter rely on. */
  lemma ParseFormat(d: ValidDate)
    ensures Parse(Format(d)) == Some(d)
  {
    var f := Format(d);
    assert f[..4] == Digits(d.year, 4);
    assert f[5..7] == Digits(d.month, 2);
    assert f[8..] == Digits(d.day, 2);
  }
}
