/**
 * The handful of java.lang.String operations the server and the client codec
 * depend on, with the JDK's semantics written out: `split` on a one-character
 * delimiter, `trim`, `toUpperCase`, `equalsIgnoreCase`, `startsWith`,
 * `endsWith`, `replace(target, "")`, the decimal rendering of a non-negative
 * int and `Integer.parseInt`.
 */
module JavaText {
  import opened Wrappers

  // ---------------------------------------------------------------------------
  // trim()
  // ---------------------------------------------------------------------------

  /** The characters `String.trim()` strips: every code unit up to U+0020. */
  predicate IsTrimmable(c: char) {
    c <= ' '
  }

  /** True iff `s.trim().isEmpty()` would hold: nothing but trimmable characters. */
  predicate IsBlank(s: string) {
    forall k :: 0 <= k < |s| ==> IsTrimmable(s[k])
  }

  /** Drops the longest prefix of trimmable characters. */
  function TrimStart(s: string): (r: string)
    ensures |r| <= |s| && r == s[|s| - |r|..]
    ensures forall k :: 0 <= k < |s| - |r| ==> IsTrimmable(s[k])
    ensures r == [] || !IsTrimmable(r[0])
  {
    if |s| > 0 && IsTrimmable(s[0]) then TrimStart(s[1..]) else s
  }

  /** Drops the longest suffix of trimmable characters. */
  function TrimEnd(s: string): (r: string)
    ensures |r| <= |s| && r == s[..|r|]
    ensures forall k :: |r| <= k < |s| ==> IsTrimmable(s[k])
    ensures r == [] || !IsTrimmable(r[|r| - 1])
  {
    if |s| > 0 && IsTrimmable(s[|s| - 1]) then TrimEnd(s[..|s| - 1]) else s
  }

  /** `String.trim()`. */
  function Trim(s: string): string {
    TrimEnd(TrimStart(s))
  }

  /** `s.trim().isEmpty()` holds exactly for blank strings. */
  lemma TrimEmptyIffBlank(s: string)
    ensures Trim(s) == [] <==> IsBlank(s)
  {
  }

  /** Trimming a line that starts visibly and ends in one trimmable character
      after a visible one removes exactly that last character. */
  lemma TrimDropsFinalTerminator(s: string)
    requires |s| >= 2 && !IsTrimmable(s[0])
    requires !IsTrimmable(s[|s| - 2]) && IsTrimmable(s[|s| - 1])
    ensures Trim(s) == s[..|s| - 1]
  {
    assert TrimStart(s) == s;
    var u := s[..|s| - 1];
    assert TrimEnd(s) == TrimEnd(u);
    assert u[|u| - 1] == s[|s| - 2];
  }

  // ---------------------------------------------------------------------------
  // toUpperCase(), equalsIgnoreCase(), startsWith(), endsWith()
  // ---------------------------------------------------------------------------

  /** Upper-case mapping of one character (the ASCII letters; every other
      character maps to itself). */
  function UpperChar(c: char): char {
    if 'a' <= c <= 'z' then (c as int - 32) as char else c
  }

  /** `String.toUpperCase()` over the ASCII letters. */
  function ToUpper(s: string): string {
    seq(|s|, k requires 0 <= k < |s| => UpperChar(s[k]))
  }

  /** `String.equalsIgnoreCase`: same length and every pair of characters
      agrees once upper-cased. */
  predicate EqualsIgnoreCase(a: string, b: string) {
    |a| == |b| && forall k :: 0 <= k < |a| ==> UpperChar(a[k]) == UpperChar(b[k])
  }

  /** Upper-casing twice is upper-casing once. */
  lemma ToUpperIdempotent(s: string)
    ensures ToUpper(ToUpper(s)) == ToUpper(s)
  {
  }

  /** Upper-casing neither creates nor removes a character that is not a
      lower-case letter, so in particular no delimiter. */
  lemma ToUpperKeepsOthers(s: string, c: char)
    requires !('a' <= c <= 'z')
    ensures c in ToUpper(s) <==> c in s || ('A' <= c <= 'Z' && (c as int + 32) as char in s)
  {
    if c in ToUpper(s) {
      var k :| 0 <= k < |s| && ToUpper(s)[k] == c;
      assert UpperChar(s[k]) == c;
    }
    if c in s {
      var k :| 0 <= k < |s| && s[k] == c;
      assert ToUpper(s)[k] == c;
    }
    if 'A' <= c <= 'Z' && (c as int + 32) as char in s {
      var k :| 0 <= k < |s| && s[k] == (c as int + 32) as char;
      assert ToUpper(s)[k] == c;
    }
  }

  /** Comparing ignoring case is comparing the upper-cased strings. */
  lemma EqualsIgnoreCaseIffUpperEqual(a: string, b: string)
    ensures EqualsIgnoreCase(a, b) <==> ToUpper(a) == ToUpper(b)
  {
    if ToUpper(a) == ToUpper(b) {
      assert |a| == |ToUpper(a)| == |ToUpper(b)| == |b|;
      forall k | 0 <= k < |a|
        ensures UpperChar(a[k]) == UpperChar(b[k])
      {
        assert ToUpper(a)[k] == ToUpper(b)[k];
      }
    }
  }

  /** `String.startsWith`. */
  predicate StartsWith(s: string, prefix: string) {
    |prefix| <= |s| && s[..|prefix|] == prefix
  }

  /** A string starts with anything it is built from. */
  lemma StartsWithAppend(a: string, b: string)
    ensures StartsWith(a + b, a)
  {
    assert (a + b)[..|a|] == a;
  }

  /** `String.endsWith`. */
  predicate EndsWith(s: string, suffix: string) {
    |suffix| <= |s| && s[|s| - |suffix|..] == suffix
  }

  // ---------------------------------------------------------------------------
  // split(): raw fields, join, and trailing-empty removal
  // ---------------------------------------------------------------------------

  /** Every piece between occurrences of `sep`, empty pieces included (what
      `split` computes before discarding trailing empty strings). */
  function Fields(s: string, sep: char): (r: seq<string>)
    ensures |r| >= 1
  {
    if |s| == 0 then [""]
    else
      var rest := Fields(s[1..], sep);
      if s[0] == sep then [""] + rest else [[s[0]] + rest[0]] + rest[1..]
  }

  /** No field contains the delimiter. */
  lemma {:induction false} FieldsArePlain(s: string, sep: char)
    ensures forall k :: 0 <= k < |Fields(s, sep)| ==> sep !in Fields(s, sep)[k]
    decreases |s|
  {
    if |s| > 0 {
      FieldsArePlain(s[1..], sep);
      var rest := Fields(s[1..], sep);
      var f := Fields(s, sep);
      if s[0] == sep {
        assert f[1..] == rest;
        forall k | 0 < k < |f| ensures sep !in f[k] {
          assert f[k] == rest[k - 1];
        }
      } else {
        assert f[0] == [s[0]] + rest[0];
        forall k | 0 < k < |f| ensures sep !in f[k] {
          assert f[k] == rest[k];
        }
      }
    }
  }

  /** The pieces glued back together with `sep` between consecutive ones. */
  function Join(xs: seq<string>, sep: char): string
    requires |xs| >= 1
    decreases |xs|
  {
    if |xs| == 1 then xs[0] else xs[0] + [sep] + Join(xs[1..], sep)
  }

  /** Joining the fields of a string gives the string back. */
  lemma {:induction false} JoinFields(s: string, sep: char)
    ensures Join(Fields(s, sep), sep) == s
    decreases |s|
  {
    if |s| > 0 {
      var rest := Fields(s[1..], sep);
      JoinFields(s[1..], sep);
      if s[0] == sep {
        assert Fields(s, sep)[1..] == rest;
      } else {
        var f := Fields(s, sep);
        if |rest| == 1 {
          assert f == [[s[0]] + rest[0]];
        } else {
          assert f[1..] == rest[1..];
          assert Join(rest, sep) == rest[0] + [sep] + Join(rest[1..], sep);
        }
      }
    }
  }

  /** The first field is where the string starts. */
  lemma FirstFieldIsPrefix(s: string, sep: char)
    ensures Fields(s, sep)[0] <= s
  {
    JoinFields(s, sep);
    var f := Fields(s, sep);
    if |f| > 1 {
      assert Join(f, sep) == f[0] + [sep] + Join(f[1..], sep);
    }
  }

  /** A string without the delimiter is a single field. */
  lemma {:induction false} FieldsOfPlain(s: string, sep: char)
    requires sep !in s
    ensures Fields(s, sep) == [s]
    decreases |s|
  {
    if |s| > 0 {
      FieldsOfPlain(s[1..], sep);
      assert [s[0]] + s[1..] == s;
    }
  }

  /** One step of `Fields`: the first character either ends the first field
      or is prepended to it. */
  lemma FieldsStep(s: string, sep: char)
    requires |s| > 0
    ensures var rest := Fields(s[1..], sep);
      Fields(s, sep) == if s[0] == sep then [""] + rest else [[s[0]] + rest[0]] + rest[1..]
  {
  }

  /** A delimiter splits the fields of the two sides apart. */
  lemma {:induction false} FieldsOfConcat(a: string, b: string, sep: char)
    ensures Fields(a + [sep] + b, sep) == Fields(a, sep) + Fields(b, sep)
    decreases |a|
  {
    if |a| == 0 {
      assert a + [sep] + b == [sep] + b;
      FieldsCons(sep, b, sep);
    } else {
      var t := a[1..];
      assert a == [a[0]] + t;
      assert a + [sep] + b == [a[0]] + (t + [sep] + b);
      FieldsOfConcat(t, b, sep);
      FieldsCons(a[0], t + [sep] + b, sep);
      FieldsCons(a[0], t, sep);
      if a[0] == sep {
        FieldsConcatAfterSep(Fields(t, sep), Fields(b, sep));
      } else {
        FieldsConcatAfterChar(a[0], Fields(t, sep), Fields(b, sep));
      }
    }
  }

  /** `Fields` on a string with a known first character. */
  lemma FieldsCons(c: char, t: string, sep: char)
    ensures Fields([c] + t, sep) ==
      if c == sep then [""] + Fields(t, sep)
      else [[c] + Fields(t, sep)[0]] + Fields(t, sep)[1..]
  {
    var s := [c] + t;
    assert s[0] == c && s[1..] == t;
  }

  /** List bookkeeping for a leading delimiter in `FieldsOfConcat`. */
  lemma FieldsConcatAfterSep(ra: seq<string>, fb: seq<string>)
    ensures [""] + (ra + fb) == ([""] + ra) + fb
  {
  }

  /** List bookkeeping for a leading ordinary character in `FieldsOfConcat`. */
  lemma FieldsConcatAfterChar(c: char, ra: seq<string>, fb: seq<string>)
    requires |ra| >= 1
    ensures [[c] + (ra + fb)[0]] + (ra + fb)[1..] == ([[c] + ra[0]] + ra[1..]) + fb
  {
    assert (ra + fb)[0] == ra[0];
    assert (ra + fb)[1..] == ra[1..] + fb;
  }

  /** A join ends with its last piece. */
  lemma {:induction false} JoinEndsWithLast(xs: seq<string>, sep: char)
    requires |xs| >= 1
    ensures EndsWith(Join(xs, sep), xs[|xs| - 1])
    decreases |xs|
  {
    if |xs| > 1 {
      JoinEndsWithLast(xs[1..], sep);
      var j := Join(xs, sep);
      var t := Join(xs[1..], sep);
      assert j == xs[0] + [sep] + t;
      assert j[|j| - |t|..] == t;
    }
  }

  /** Fields and Join are inverse: splitting a join of delimiter-free pieces
      gives the pieces back. */
  lemma {:induction false} FieldsJoin(xs: seq<string>, sep: char)
    requires |xs| >= 1
    requires forall k :: 0 <= k < |xs| ==> sep !in xs[k]
    ensures Fields(Join(xs, sep), sep) == xs
    decreases |xs|
  {
    FieldsOfPlain(xs[0], sep);
    if |xs| > 1 {
      FieldsJoin(xs[1..], sep);
      FieldsOfConcat(xs[0], Join(xs[1..], sep), sep);
      assert xs == [xs[0]] + xs[1..];
    }
  }

  /** Every field is empty exactly when the string is nothing but delimiters. */
  lemma {:induction false} FieldsAllEmptyIff(s: string, sep: char)
    ensures (forall k :: 0 <= k < |Fields(s, sep)| ==> Fields(s, sep)[k] == "")
        <==> (forall k :: 0 <= k < |s| ==> s[k] == sep)
    decreases |s|
  {
    if |s| > 0 {
      FieldsAllEmptyIff(s[1..], sep);
      var f := Fields(s, sep);
      var rest := Fields(s[1..], sep);
      if s[0] == sep {
        assert f[1..] == rest;
        if forall k :: 0 <= k < |s[1..]| ==> s[1..][k] == sep {
          forall k | 0 <= k < |s|
            ensures s[k] == sep
          {
            if k > 0 { assert s[k] == s[1..][k - 1]; }
          }
        }
        if forall k :: 0 <= k < |s| ==> s[k] == sep {
          forall k | 0 <= k < |s[1..]|
            ensures s[1..][k] == sep
          {
            assert s[1..][k] == s[k + 1];
          }
          forall k | 0 <= k < |f|
            ensures f[k] == ""
          {
            if k > 0 { assert f[k] == rest[k - 1]; }
          }
        }
      } else {
        assert f[0] != "";
      }
    }
  }

  /** The list with its trailing empty strings removed, as `split` does. */
  function DropTrailingEmpty(xs: seq<string>): (r: seq<string>)
    ensures |r| <= |xs| && r == xs[..|r|]
    ensures forall k :: |r| <= k < |xs| ==> xs[k] == ""
    ensures r == [] || r[|r| - 1] != ""
  {
    if |xs| > 0 && xs[|xs| - 1] == "" then DropTrailingEmpty(xs[..|xs| - 1]) else xs
  }

  /** A non-empty entry survives trailing-empty removal, with everything before it. */
  lemma DropTrailingEmptyKeeps(xs: seq<string>, k: nat)
    requires k < |xs| && xs[k] != ""
    ensures |DropTrailingEmpty(xs)| > k
  {
  }

  /** A non-empty first entry shields the rest: removal works on the tail only. */
  lemma {:induction false} DropTrailingEmptyCons(x: string, xs: seq<string>)
    requires x != ""
    ensures DropTrailingEmpty([x] + xs) == [x] + DropTrailingEmpty(xs)
    decreases |xs|
  {
    var ys := [x] + xs;
    if |xs| > 0 && xs[|xs| - 1] == "" {
      assert ys[..|ys| - 1] == [x] + xs[..|xs| - 1];
      DropTrailingEmptyCons(x, xs[..|xs| - 1]);
    }
  }

  /** Trailing-empty removal works on the tail only, once the tail keeps a
      non-empty entry. */
  lemma {:induction false} DropTrailingEmptyAppend(xs: seq<string>, ys: seq<string>)
    requires DropTrailingEmpty(ys) != []
    ensures DropTrailingEmpty(xs + ys) == xs + DropTrailingEmpty(ys)
    decreases |ys|
  {
    var zs := xs + ys;
    if ys[|ys| - 1] == "" {
      assert zs[..|zs| - 1] == xs + ys[..|ys| - 1];
      DropTrailingEmptyAppend(xs, ys[..|ys| - 1]);
    }
  }

  /** Putting a field and a delimiter in front adds at least one field that
      survives trailing-empty removal. */
  lemma FieldsGrowInFront(a: string, t: string, sep: char)
    requires DropTrailingEmpty(Fields(t, sep)) != []
    ensures |DropTrailingEmpty(Fields(a + [sep] + t, sep))| > |DropTrailingEmpty(Fields(t, sep))|
  {
    FieldsOfConcat(a, t, sep);
    DropTrailingEmptyAppend(Fields(a, sep), Fields(t, sep));
  }

  /** A non-empty, delimiter-free piece of a join is still there after
      trailing-empty removal, together with everything before it. */
  lemma {:induction false} JoinKeepsField(xs: seq<string>, sep: char, k: nat)
    requires k < |xs| && xs[k] != "" && sep !in xs[k]
    ensures |DropTrailingEmpty(Fields(Join(xs, sep), sep))| > k
    decreases k
  {
    if |xs| == 1 {
      FieldsOfPlain(xs[0], sep);
    } else if k == 0 {
      FieldsOfPlain(xs[0], sep);
      FieldsOfConcat(xs[0], Join(xs[1..], sep), sep);
      DropTrailingEmptyCons(xs[0], Fields(Join(xs[1..], sep), sep));
    } else {
      JoinKeepsField(xs[1..], sep, k - 1);
      FieldsGrowInFront(xs[0], Join(xs[1..], sep), sep);
    }
  }

  /** `s.split(sep)` with the default limit 0: the input unchanged when the
      delimiter does not occur, and otherwise its fields without the trailing
      empty ones. */
  function Split(s: string, sep: char): (r: seq<string>)
    ensures forall k :: 0 <= k < |r| ==> sep !in r[k]
    ensures |r| <= |Fields(s, sep)| && r == Fields(s, sep)[..|r|]
    ensures forall k :: |r| <= k < |Fields(s, sep)| ==> Fields(s, sep)[k] == ""
    ensures s != [] ==> r == [] || r[|r| - 1] != ""
  {
    if sep !in s then FieldsOfPlain(s, sep); [s]
    else FieldsArePlain(s, sep); DropTrailingEmpty(Fields(s, sep))
  }

  /** Splitting a line whose first field is a non-empty word: that word, then
      the fields of the remainder without their trailing empty ones. */
  lemma SplitAfterPlainHead(head: string, rest: string, sep: char)
    requires head != "" && sep !in head
    ensures Split(head + [sep] + rest, sep) == [head] + DropTrailingEmpty(Fields(rest, sep))
  {
    var s := head + [sep] + rest;
    assert s[|head|] == sep;
    FieldsOfConcat(head, rest, sep);
    FieldsOfPlain(head, sep);
    DropTrailingEmptyCons(head, Fields(rest, sep));
  }

  /** `split` yields an empty array exactly for a non-empty run of delimiters. */
  lemma SplitEmptyIff(s: string, sep: char)
    ensures Split(s, sep) == [] <==> |s| > 0 && forall k :: 0 <= k < |s| ==> s[k] == sep
  {
    FieldsAllEmptyIff(s, sep);
    if |s| > 0 && forall k :: 0 <= k < |s| ==> s[k] == sep {
      assert s[0] == sep;
    }
  }

  /** Splitting a join of delimiter-free pieces whose last piece is non-empty
      gives the pieces back. */
  lemma SplitJoin(xs: seq<string>, sep: char)
    requires |xs| >= 1 && xs[|xs| - 1] != ""
    requires forall k :: 0 <= k < |xs| ==> sep !in xs[k]
    ensures Split(Join(xs, sep), sep) == xs
  {
    FieldsJoin(xs, sep);
    var s := Join(xs, sep);
    var r := Split(s, sep);
    DropTrailingEmptyKeeps(xs, |xs| - 1);
    if sep in s {
      assert r == DropTrailingEmpty(xs);
    } else {
      FieldsOfPlain(s, sep);
    }
  }

  // ---------------------------------------------------------------------------
  // replace(target, "") and substring search
  // ---------------------------------------------------------------------------

  /** True iff `pat` occurs somewhere in `s` (`s.contains(pat)`). */
  predicate Contains(s: string, pat: string) {
    exists i :: 0 <= i <= |s| && OccursAt(s, pat, i)
  }

  /** True iff `pat` occurs in `s` starting at index `i`. */
  predicate OccursAt(s: string, pat: string, i: int) {
    0 <= i && i + |pat| <= |s| && s[i..i + |pat|] == pat
  }

  /** `s.replace(pat, "")`: every occurrence of `pat`, scanning left to right
      without overlap, removed. */
  function RemoveAll(s: string, pat: string): string
    requires |pat| > 0
    decreases |s|
  {
    if |s| < |pat| then s
    else if s[..|pat|] == pat then RemoveAll(s[|pat|..], pat)
    else [s[0]] + RemoveAll(s[1..], pat)
  }

  /** Removing a pattern that does not occur changes nothing. */
  lemma {:induction false} RemoveAllAbsent(s: string, pat: string)
    requires |pat| > 0 && !Contains(s, pat)
    ensures RemoveAll(s, pat) == s
    decreases |s|
  {
    if |s| >= |pat| {
      assert s[0..0 + |pat|] == s[..|pat|];
      assert !OccursAt(s, pat, 0);
      if !Contains(s[1..], pat) {
        RemoveAllAbsent(s[1..], pat);
        assert [s[0]] + s[1..] == s;
      } else {
        var i :| 0 <= i <= |s[1..]| && OccursAt(s[1..], pat, i);
        assert s[1..][i..i + |pat|] == s[i + 1..i + 1 + |pat|];
        assert OccursAt(s, pat, i + 1);
      }
    }
  }

  /** Removing a pattern never lengthens a string, and shortens it when the
      pattern occurs. */
  lemma {:induction false} RemoveAllShortens(s: string, pat: string)
    requires |pat| > 0
    ensures |RemoveAll(s, pat)| <= |s|
    ensures Contains(s, pat) ==> |RemoveAll(s, pat)| < |s|
    decreases |s|
  {
    if |s| >= |pat| {
      if s[..|pat|] == pat {
        RemoveAllShortens(s[|pat|..], pat);
      } else {
        RemoveAllShortens(s[1..], pat);
        if Contains(s, pat) {
          var i :| 0 <= i <= |s| && OccursAt(s, pat, i);
          assert i != 0;
          assert s[1..][i - 1..i - 1 + |pat|] == s[i..i + |pat|];
          assert OccursAt(s[1..], pat, i - 1);
        }
      }
    }
  }

  // ---------------------------------------------------------------------------
  // Decimal digits
  // ---------------------------------------------------------------------------

  /** True iff `c` is one of the ASCII digits. */
  predicate IsDigit(c: char) {
    '0' <= c <= '9'
  }

  /** True iff every character of `s` is a digit. */
  predicate AllDigits(s: string) {
    forall k :: 0 <= k < |s| ==> IsDigit(s[k])
  }

  /** The digit character for a value below ten. */
  function DigitChar(d: nat): (c: char)
    requires d < 10
    ensures IsDigit(c) && c as int - '0' as int == d
  {
    ('0' as int + d) as char
  }

  /** The value of a string of digits (`Integer.parseInt` on such a string). */
  function DecimalValue(s: string): nat
    requires forall k :: 0 <= k < |s| ==> IsDigit(s[k])
    decreases |s|
  {
    if s == [] then 0
    else
      assert IsDigit(s[|s| - 1]);
      10 * DecimalValue(s[..|s| - 1]) + (s[|s| - 1] as int - '0' as int)
  }

  /** `Integer.toString(n)` for a non-negative n: its decimal digits, no sign,
      no leading zero. */
  function NatToString(n: nat): (r: string)
    ensures |r| >= 1 && forall k :: 0 <= k < |r| ==> IsDigit(r[k])
    ensures |r| > 1 ==> r[0] != '0'
    decreases n
  {
    if n < 10 then [DigitChar(n)] else NatToString(n / 10) + [DigitChar(n % 10)]
  }

  /** Reading back the decimal rendering of a number gives the number. */
  lemma {:induction false} NatToStringRoundTrip(n: nat)
    ensures DecimalValue(NatToString(n)) == n
    decreases n
  {
    if n >= 10 {
      NatToStringRoundTrip(n / 10);
      var r := NatToString(n);
      assert r[..|r| - 1] == NatToString(n / 10);
    }
  }

  /** The range of a Java `int`. */
  const IntMin := -0x8000_0000
  const IntMax := 0x7fff_ffff

  /** `Integer.parseInt`: an optional '-' or '+', then one or more digits
      whose signed value fits in an `int`; `None` where it throws
      NumberFormatException. */
  function ParseInt(s: string): (r: Option<int>)
    ensures r.Some? ==> IntMin <= r.value <= IntMax
    ensures r.Some? ==> s != [] && (IsDigit(s[0]) || s[0] == '-' || s[0] == '+')
  {
    var signed := |s| > 0 && (s[0] == '-' || s[0] == '+');
    var digits := if signed then s[1..] else s;
    if digits == [] || !AllDigits(digits) then None
    else
      var v: int := if signed && s[0] == '-' then -(DecimalValue(digits) as int) else DecimalValue(digits);
      if IntMin <= v <= IntMax then Some(v) else None
  }

  /** `Integer.parseInt` reads back `Integer.toString` of a non-negative
      number, and refuses the decimal rendering of one past the int range. */
  lemma ParseIntOfNat(n: nat)
    ensures ParseInt(NatToString(n)) == if n <= IntMax then Some(n) else None
  {
    NatToStringRoundTrip(n);
  }

  /** A leading '-' negates; the most negative int is read, although its
      magnitude is no int. */
  lemma ParseIntNegative(n: nat)
    ensures ParseInt(['-'] + NatToString(n)) == if n <= -IntMin then Some(-(n as int)) else None
  {
    NatToStringRoundTrip(n);
    assert (['-'] + NatToString(n))[1..] == NatToString(n);
  }

  // ---------------------------------------------------------------------------
  // Line framing
  // ---------------------------------------------------------------------------

  /** Every line followed by a newline, as a `StringBuilder` loop appending
      `line` then `"\n"` produces. */
  function Terminated(lines: seq<string>): string
    decreases |lines|
  {
    if lines == [] then "" else lines[0] + "\n" + Terminated(lines[1..])
  }

  /** Newline-terminating a non-empty list of lines is newline-joining them and
      adding one final newline. */
  lemma {:induction false} TerminatedIsJoin(lines: seq<string>)
    requires |lines| >= 1
    ensures Terminated(lines) == Join(lines, '\n') + "\n"
    decreases |lines|
  {
    if |lines| > 1 {
      TerminatedIsJoin(lines[1..]);
    }
  }
}
