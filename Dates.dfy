/**
 * Instants in UTC, their order, and the two date patterns of the digest:
 * `strptime(s, '%d-%m-%Y')` for the window bounds and `strftime` with
 * '%d-%m-%Y' or '%d-%m-%Y %H:%M' for display.
 */
module Dates {
  import opened Wrappers

  datatype DateTime = DateTime(year: int, month: int, day: int, hour: int, minute: int, second: int)

  predicate IsLeapYear(y: int) {
    y % 4 == 0 && (y % 100 != 0 || y % 400 == 0)
  }

  function DaysInMonth(y: int, m: int): int
    requires 1 <= m <= 12
  {
    if m == 2 then (if IsLeapYear(y) then 29 else 28)
    else if m == 4 || m == 6 || m == 9 || m == 11 then 30
    else 31
  }

  /** What Python's `datetime` admits: years 1 to 9999, days of the real calendar, a 24-hour clock. */
  predicate ValidDateTime(t: DateTime) {
    1 <= t.year <= 9999 && 1 <= t.month <= 12 && 1 <= t.day <= DaysInMonth(t.year, t.month)
    && 0 <= t.hour < 24 && 0 <= t.minute < 60 && 0 <= t.second < 60
  }

  /** A timezone-aware `datetime` in UTC, to the second. */
  type Instant = t: DateTime | ValidDateTime(t) witness DateTime(1970, 1, 1, 0, 0, 0)

  /** `a <= b` on aware datetimes: chronological, which is lexicographic on the fields. */
  predicate NotAfter(a: Instant, b: Instant) {
    if a.year != b.year then a.year < b.year
    else if a.month != b.month then a.month < b.month
    else if a.day != b.day then a.day < b.day
    else if a.hour != b.hour then a.hour < b.hour
    else if a.minute != b.minute then a.minute < b.minute
    else a.second <= b.second
  }

  lemma NotAfterTotal(a: Instant, b: Instant)
    ensures NotAfter(a, b) || NotAfter(b, a)
  {
  }

  lemma NotAfterTransitive(a: Instant, b: Instant, c: Instant)
    requires NotAfter(a, b) && NotAfter(b, c)
    ensures NotAfter(a, c)
  {
  }

  lemma NotAfterAntisymmetric(a: Instant, b: Instant)
    requires NotAfter(a, b) && NotAfter(b, a)
    ensures a == b
  {
  }

  /** The first instant of the day `t` falls on. */
  function Midnight(t: Instant): Instant {
    DateTime(t.year, t.month, t.day, 0, 0, 0)
  }

  predicate IsDigit(c: char) {
    '0' <= c <= '9'
  }

  predicate AllDigits(s: string) {
    forall i :: 0 <= i < |s| ==> IsDigit(s[i])
  }

  function Pow10(n: nat): (p: nat)
    ensures p >= 1
  {
    if n == 0 then 1 else 10 * Pow10(n - 1)
  }

  /** The value of a run of decimal digits, as `int()` reads it. */
  function Number(s: string): (n: nat)
    requires AllDigits(s)
    ensures n < Pow10(|s|)
  {
    if s == "" then 0
    else
      var d := (s[|s| - 1] as int) - ('0' as int);
      10 * Number(s[..|s| - 1]) + d
  }

  /** `n` written in exactly `width` decimal digits, zero-padded, as `strftime` writes a field. */
  function Padded(n: nat, width: nat): (r: string)
    requires n < Pow10(width)
    ensures |r| == width && AllDigits(r) && Number(r) == n
  {
    if width == 0 then ""
    else
      LastDigit(n, Pow10(width - 1));
      var head := Padded(n / 10, width - 1);
      var r := head + [(('0' as int) + n % 10) as char];
      assert r[..width - 1] == head;
      assert forall i :: 0 <= i < width - 1 ==> r[i] == head[i];
      r
  }

  /** Below `10 * p`, dropping the last decimal digit leaves a number below `p`. */
  lemma LastDigit(n: nat, p: nat)
    requires n < 10 * p
    ensures n / 10 < p && n == 10 * (n / 10) + n % 10 && 0 <= n % 10 < 10
  {
  }

  /** Writing back a digit string's value at its own width gives the string again. */
  lemma {:induction false} PaddedNumber(s: string)
    requires AllDigits(s)
    ensures Padded(Number(s), |s|) == s
  {
    if s != "" {
      var init := s[..|s| - 1];
      PaddedNumber(init);
      var n := Number(s);
      assert n / 10 == Number(init) && n % 10 == (s[|s| - 1] as int) - ('0' as int);
      assert s == init + [s[|s| - 1]];
    }
  }

  /** `t.strftime('%d-%m-%Y')`. */
  function FormatDate(t: Instant): (r: string)
    ensures |r| == 10 && r[2] == '-' && r[5] == '-'
    ensures AllDigits(r[..2]) && Number(r[..2]) == t.day
    ensures AllDigits(r[3..5]) && Number(r[3..5]) == t.month
    ensures AllDigits(r[6..]) && Number(r[6..]) == t.year
  {
    var dd, mm, yyyy := Padded(t.day, 2), Padded(t.month, 2), Padded(t.year, 4);
    var r := dd + "-" + mm + "-" + yyyy;
    assert r[..2] == dd;
    assert r[3..5] == mm;
    assert r[6..] == yyyy;
    r
  }

  /**
   * `t.strftime('%d-%m-%Y %H:%M')`: the date, a space, the hour in two
   * digits, a colon and the minute in two digits; one line of 16 characters.
   */
  function FormatDateTime(t: Instant): (r: string)
    ensures |r| == 16 && r[..10] == FormatDate(t) && '\n' !in r
    ensures r[10] == ' ' && r[13] == ':'
    ensures AllDigits(r[11..13]) && Number(r[11..13]) == t.hour
    ensures AllDigits(r[14..]) && Number(r[14..]) == t.minute
  {
    var hh, mm := Padded(t.hour, 2), Padded(t.minute, 2);
    var r := FormatDate(t) + " " + hh + ":" + mm;
    assert r[11..13] == hh;
    assert r[14..] == mm;
    assert forall i :: 0 <= i < |r| ==> r[i] == '-' || r[i] == ' ' || r[i] == ':' || IsDigit(r[i]);
    r
  }

  /** Why `strptime` raises `ValueError`: the text does not fit the pattern, or names no real day. */
  datatype DateError = NoMatch | OutOfRange

  /**
   * `datetime.strptime(s, '%d-%m-%Y').replace(tzinfo=UTC)` on zero-padded
   * text: a day `01`-`31`, a month `01`-`12` and a four-digit year, each
   * separated by `-`, naming a real calendar day in years 1 to 9999.
   */
  function ParseDate(s: string): (r: Result<Instant, DateError>)
    ensures r.Success? ==> r.value == Midnight(r.value) && |s| == 10 && s[2] == '-' && s[5] == '-'
    ensures r.Success? ==> AllDigits(s[..2]) && Number(s[..2]) == r.value.day
    ensures r.Success? ==> AllDigits(s[3..5]) && Number(s[3..5]) == r.value.month
    ensures r.Success? ==> AllDigits(s[6..]) && Number(s[6..]) == r.value.year
  {
    if |s| != 10 || s[2] != '-' || s[5] != '-'
       || !AllDigits(s[..2]) || !AllDigits(s[3..5]) || !AllDigits(s[6..]) then
      Failure(NoMatch)
    else
      var d, m, y := Number(s[..2]), Number(s[3..5]), Number(s[6..]);
      if d < 1 || 31 < d || m < 1 || 12 < m then Failure(NoMatch)
      else if y < 1 || DaysInMonth(y, m) < d then Failure(OutOfRange)
      else Success(DateTime(y, m, d, 0, 0, 0))
  }

  /** Parsing a formatted date gives back that day at midnight. */
  lemma ParseFormatRoundTrip(t: Instant)
    ensures ParseDate(FormatDate(t)) == Success(Midnight(t))
  {
    var s := FormatDate(t);
    assert s[..2] == Padded(t.day, 2);
    assert s[3..5] == Padded(t.month, 2);
    assert s[6..] == Padded(t.year, 4);
  }

  /** A date string that parses is exactly the formatting of the instant it parses to, at midnight. */
  lemma FormatParseRoundTrip(s: string)
    requires ParseDate(s).Success?
    ensures FormatDate(ParseDate(s).value) == s
    ensures ParseDate(s).value == Midnight(ParseDate(s).value)
  {
    PaddedNumber(s[..2]);
    PaddedNumber(s[3..5]);
    PaddedNumber(s[6..]);
    assert s == s[..2] + "-" + s[3..5] + "-" + s[6..];
  }

  /**
   * The Release Date column tells instants apart to the minute: two instants
   * written alike fall on the same day, hour and minute.
   */
  lemma FormatDateTimeDeterminesMinute(t: Instant, u: Instant)
    requires FormatDateTime(t) == FormatDateTime(u)
    ensures Midnight(t) == Midnight(u) && t.hour == u.hour && t.minute == u.minute
  {
    ParseFormatRoundTrip(t);
    ParseFormatRoundTrip(u);
    assert FormatDate(t) == FormatDateTime(t)[..10] == FormatDate(u);
  }
}
