/**
 * Instants as the dashboard holds them after `pd.to_datetime`: broken-down
 * calendar fields down to the nanosecond, limited to the range a pandas
 * `Timestamp` can represent, ordered chronologically, and rendered with
 * `strftime('%Y-%m-%d %H:%M:%S')`.
 */
module Timestamps {

  import opened Wrappers

  datatype DateTime = DateTime(
    year: int, month: int, day: int,
    hour: int, minute: int, second: int, nanosecond: int)

  predicate IsLeapYear(y: int) {
    y % 4 == 0 && (y % 100 != 0 || y % 400 == 0)
  }

  function DaysInMonth(y: int, m: int): int
    requires 1 <= m <= 12
  {
    if m == 2 then (if IsLeapYear(y) then 29 else 28)
    else if m == 4 || m == 6 || m == 9 || m == 11 then 30
    else 31
  }

  /** A real calendar instant with a four-digit year (Python's `datetime` range). */
  predicate CalendarValid(d: DateTime) {
    && 1 <= d.year <= 9999
    && 1 <= d.month <= 12
    && 1 <= d.day <= DaysInMonth(d.year, d.month)
    && 0 <= d.hour < 24
    && 0 <= d.minute < 60
    && 0 <= d.second < 60
    && 0 <= d.nanosecond < 1_000_000_000
  }

  /** Strictly earlier, comparing field by field from the year down. */
  predicate Before(a: DateTime, b: DateTime) {
    || a.year < b.year
    || (a.year == b.year && a.month < b.month)
    || (a.year == b.year && a.month == b.month && a.day < b.day)
    || (a.year == b.year && a.month == b.month && a.day == b.day && a.hour < b.hour)
    || (a.year == b.year && a.month == b.month && a.day == b.day && a.hour == b.hour
        && a.minute < b.minute)
    || (a.year == b.year && a.month == b.month && a.day == b.day && a.hour == b.hour
        && a.minute == b.minute && a.second < b.second)
    || (a.year == b.year && a.month == b.month && a.day == b.day && a.hour == b.hour
        && a.minute == b.minute && a.second == b.second && a.nanosecond < b.nanosecond)
  }

  /** `Before` is a strict total order: irreflexive, transitive and total. */
  lemma BeforeIsStrictTotalOrder(a: DateTime, b: DateTime, c: DateTime)
    ensures !Before(a, a)
    ensures Before(a, b) && Before(b, c) ==> Before(a, c)
    ensures a == b || Before(a, b) || Before(b, a)
    ensures !(Before(a, b) && Before(b, a))
  {
  }

  /** The earliest and latest instants a pandas `Timestamp` can hold. */
  const MIN_TIMESTAMP := DateTime(1677, 9, 21, 0, 12, 43, 145_224_193)
  const MAX_TIMESTAMP := DateTime(2262, 4, 11, 23, 47, 16, 854_775_807)

  /** What `pd.to_datetime` yields for a non-null date column value. */
  type Timestamp = d: DateTime
    | CalendarValid(d) && !Before(d, MIN_TIMESTAMP) && !Before(MAX_TIMESTAMP, d)
    witness DateTime(1970, 1, 1, 0, 0, 0, 0)

  function DigitChar(d: int): char
    requires 0 <= d < 10
  {
    ('0' as int + d) as char
  }

  predicate IsDigit(c: char) {
    '0' <= c <= '9'
  }

  predicate AllDigits(s: string) {
    forall i :: 0 <= i < |s| ==> IsDigit(s[i])
  }

  /** The lowest `width` decimal digits of `n`, zero-padded on the left. */
  function Digits(n: nat, width: nat): (s: string)
    ensures |s| == width && AllDigits(s)
  {
    if width == 0 then []
    else Digits(n / 10, width - 1) + [DigitChar(n % 10)]
  }

  /** The number a string of decimal digits denotes. */
  function DigitsValue(s: string): nat
    requires AllDigits(s)
  {
    if s == [] then 0
    else DigitsValue(s[..|s| - 1]) * 10 + (s[|s| - 1] as int - '0' as int)
  }

  function Pow10(k: nat): (p: nat)
    ensures p >= 1
  {
    if k == 0 then 1 else 10 * Pow10(k - 1)
  }

  /** A number of at most `width` digits is read back from its padded rendering. */
  lemma {:induction false} DigitsRoundTrip(n: nat, width: nat)
    requires n < Pow10(width)
    ensures DigitsValue(Digits(n, width)) == n
  {
    if width > 0 {
      var s := Digits(n, width);
      assert s[..|s| - 1] == Digits(n / 10, width - 1);
      DigitsRoundTrip(n / 10, width - 1);
    }
  }

  /** A digit string is its own padded rendering. */
  lemma {:induction false} DigitsOfValue(s: string)
    requires AllDigits(s)
    ensures DigitsValue(s) < Pow10(|s|)
    ensures Digits(DigitsValue(s), |s|) == s
  {
    if s != [] {
      var init := s[..|s| - 1];
      DigitsOfValue(init);
      var v := DigitsValue(s);
      var d := s[|s| - 1] as int - '0' as int;
      assert v / 10 == DigitsValue(init) && v % 10 == d;
      assert s == init + [DigitChar(d)];
    }
  }

  /**
   * `strftime('%Y-%m-%d %H:%M:%S')`: zero-padded fields, the sub-second
   * part dropped.
   */
  function FormatDate(d: DateTime): (text: string)
    requires CalendarValid(d)
    ensures |text| == 19
  {
    Digits(d.year, 4) + "-" + Digits(d.month, 2) + "-" + Digits(d.day, 2) + " "
      + Digits(d.hour, 2) + ":" + Digits(d.minute, 2) + ":" + Digits(d.second, 2)
  }

  /** Where each part of `YYYY-MM-DD HH:MM:SS` sits. */
  lemma DateTextLayout(y: string, mo: string, d: string, h: string, mi: string, s: string)
    requires |y| == 4 && |mo| == 2 && |d| == 2 && |h| == 2 && |mi| == 2 && |s| == 2
    ensures var text := y + "-" + mo + "-" + d + " " + h + ":" + mi + ":" + s;
      && |text| == 19
      && text[4] == '-' && text[7] == '-' && text[10] == ' ' && text[13] == ':' && text[16] == ':'
      && text[0..4] == y && text[5..7] == mo && text[8..10] == d
      && text[11..13] == h && text[14..16] == mi && text[17..19] == s
  {
    var text := y + "-" + mo + "-" + d + " " + h + ":" + mi + ":" + s;
    assert text[0..4] == y;
    assert text[5..7] == mo;
    assert text[8..10] == d;
    assert text[11..13] == h;
    assert text[14..16] == mi;
    assert text[17..19] == s;
  }

  /**
   * The rendered date is 19 characters with the separators in place, and
   * each zero-padded group denotes the corresponding field.
   */
  lemma FormatDateLayout(d: DateTime)
    requires CalendarValid(d)
    ensures var s := FormatDate(d);
      && |s| == 19
      && s[4] == '-' && s[7] == '-' && s[10] == ' ' && s[13] == ':' && s[16] == ':'
      && AllDigits(s[0..4]) && DigitsValue(s[0..4]) == d.year
      && AllDigits(s[5..7]) && DigitsValue(s[5..7]) == d.month
      && AllDigits(s[8..10]) && DigitsValue(s[8..10]) == d.day
      && AllDigits(s[11..13]) && DigitsValue(s[11..13]) == d.hour
      && AllDigits(s[14..16]) && DigitsValue(s[14..16]) == d.minute
      && AllDigits(s[17..19]) && DigitsValue(s[17..19]) == d.second
  {
    DateTextLayout(Digits(d.year, 4), Digits(d.month, 2), Digits(d.day, 2),
                   Digits(d.hour, 2), Digits(d.minute, 2), Digits(d.second, 2));
    DigitsRoundTrip(d.year, 4);
    DigitsRoundTrip(d.month, 2);
    DigitsRoundTrip(d.day, 2);
    DigitsRoundTrip(d.hour, 2);
    DigitsRoundTrip(d.minute, 2);
    DigitsRoundTrip(d.second, 2);
  }

  predicate WellFormedDateText(s: string) {
    && |s| == 19
    && s[4] == '-' && s[7] == '-' && s[10] == ' ' && s[13] == ':' && s[16] == ':'
    && AllDigits(s[0..4]) && AllDigits(s[5..7]) && AllDigits(s[8..10])
    && AllDigits(s[11..13]) && AllDigits(s[14..16]) && AllDigits(s[17..19])
  }

  /**
   * Reads `YYYY-MM-DD HH:MM:SS` back into a whole-second instant; `None`
   * for text of another shape or for a date that is not on the calendar.
   */
  function ParseDate(s: string): (r: Option<DateTime>)
    ensures r.Some? ==> CalendarValid(r.value) && r.value.nanosecond == 0
  {
    if !WellFormedDateText(s) then None
    else
      var d := DateTime(
        DigitsValue(s[0..4]), DigitsValue(s[5..7]), DigitsValue(s[8..10]),
        DigitsValue(s[11..13]), DigitsValue(s[14..16]), DigitsValue(s[17..19]), 0);
      if CalendarValid(d) then Some(d) else None
  }

  /** Parsing the rendered date recovers the instant to the second. */
  lemma ParseFormatDate(d: DateTime)
    requires CalendarValid(d)
    ensures ParseDate(FormatDate(d)) == Some(d.(nanosecond := 0))
  {
    FormatDateLayout(d);
  }

  /** Two digit groups of one width that denote the same number are the same text. */
  lemma SameDigits(a: string, b: string)
    requires AllDigits(a) && AllDigits(b) && |a| == |b|
    requires DigitsValue(a) == DigitsValue(b)
    ensures a == b
  {
    DigitsOfValue(a);
    DigitsOfValue(b);
  }

  /** Two date texts with equal separators and equal digit groups are equal. */
  lemma SameDateText(s: string, f: string)
    requires WellFormedDateText(s) && WellFormedDateText(f)
    requires s[0..4] == f[0..4] && s[5..7] == f[5..7] && s[8..10] == f[8..10]
    requires s[11..13] == f[11..13] && s[14..16] == f[14..16] && s[17..19] == f[17..19]
    ensures s == f
  {
    forall i | 0 <= i < 19
      ensures f[i] == s[i]
    {
      if i < 4 { assert f[0..4][i] == s[0..4][i]; }
      else if 5 <= i < 7 { assert f[5..7][i - 5] == s[5..7][i - 5]; }
      else if 8 <= i < 10 { assert f[8..10][i - 8] == s[8..10][i - 8]; }
      else if 11 <= i < 13 { assert f[11..13][i - 11] == s[11..13][i - 11]; }
      else if 14 <= i < 16 { assert f[14..16][i - 14] == s[14..16][i - 14]; }
      else if 17 <= i < 19 { assert f[17..19][i - 17] == s[17..19][i - 17]; }
    }
  }

  /** Every text the parser accepts is exactly the rendering of what it parsed. */
  lemma FormatParseDate(s: string)
    requires ParseDate(s).Some?
    ensures FormatDate(ParseDate(s).value) == s
  {
    var d := ParseDate(s).value;
    var f := FormatDate(d);
    FormatDateLayout(d);
    SameDigits(f[0..4], s[0..4]);
    SameDigits(f[5..7], s[5..7]);
    SameDigits(f[8..10], s[8..10]);
    SameDigits(f[11..13], s[11..13]);
    SameDigits(f[14..16], s[14..16]);
    SameDigits(f[17..19], s[17..19]);
    SameDateText(s, f);
  }

}
