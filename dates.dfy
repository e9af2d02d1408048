/**
 * `dates_close` of src/match.py and the `datetime.strptime(s, "%Y-%m-%d")`
 * calls it relies on, reduced to a parser from text to a day number.
 */
module Dates {
  import opened Wrappers

  predicate IsDigit(c: char) { '0' <= c <= '9' }

  function DigitValue(c: char): int { c as int - '0' as int }

  predicate IsLeapYear(y: int) {
    y % 4 == 0 && (y % 100 != 0 || y % 400 == 0)
  }

  function DaysInMonth(y: int, m: int): int {
    if m == 2 then (if IsLeapYear(y) then 29 else 28)
    else if m == 4 || m == 6 || m == 9 || m == 11 then 30
    else 31
  }

  /** Days in the months of year y before month m. */
  function DaysBeforeMonth(y: int, m: int): int {
    var before := [0, 31, 59, 90, 120, 151, 181, 212, 243, 273, 304, 334];
    if m < 1 || m > 12 then 0
    else before[m - 1] + (if m > 2 && IsLeapYear(y) then 1 else 0)
  }

  /** Days in the years before year y (proleptic Gregorian calendar). */
  function DaysBeforeYear(y: int): int {
    var p := y - 1;
    365 * p + p / 4 - p / 100 + p / 400
  }

  /** The calendar dates `datetime` accepts: years 1 to 9999. */
  predicate ValidDate(y: int, m: int, d: int) {
    1 <= y <= 9999 && 1 <= m <= 12 && 1 <= d <= DaysInMonth(y, m)
  }

  /** The day number of a date, 0001-01-01 being day 1, as `date.toordinal()`. */
  function DayOrdinal(y: int, m: int, d: int): int {
    DaysBeforeYear(y) + DaysBeforeMonth(y, m) + d
  }

  /** The date after a valid date. */
  function NextDay(y: int, m: int, d: int): (int, int, int) {
    if d < DaysInMonth(y, m) then (y, m, d + 1)
    else if m < 12 then (y, m + 1, 1)
    else (y + 1, 1, 1)
  }

  /** The text "YYYY-MM-DD" for a date. */
  function FormatDate(y: nat, m: nat, d: nat): string
    requires y <= 9999 && m <= 99 && d <= 99
  {
    [Digit(y / 10 / 10 / 10), Digit(y / 10 / 10 % 10), Digit(y / 10 % 10), Digit(y % 10), '-',
     Digit(m / 10), Digit(m % 10), '-', Digit(d / 10), Digit(d % 10)]
  }

  function Digit(n: nat): (c: char)
    requires n <= 9
    ensures IsDigit(c) && DigitValue(c) == n
  {
    ('0' as int + n) as char
  }

  /**
   * `datetime.strptime(s, "%Y-%m-%d")` reduced to what the engine uses: the
   * day number of the date written as exactly four, two and two digits
   * separated by '-', or None where strptime raises (a malformed text or a
   * date that does not exist).
   */
  function ParseDate(s: string): (r: Option<int>)
    ensures r.Some? ==> |s| == 10 && s[4] == '-' && s[7] == '-'
  {
    if |s| != 10 || s[4] != '-' || s[7] != '-' then None
    else if !(IsDigit(s[0]) && IsDigit(s[1]) && IsDigit(s[2]) && IsDigit(s[3])
              && IsDigit(s[5]) && IsDigit(s[6]) && IsDigit(s[8]) && IsDigit(s[9])) then None
    else
      var y := 1000 * DigitValue(s[0]) + 100 * DigitValue(s[1]) + 10 * DigitValue(s[2]) + DigitValue(s[3]);
      var m := 10 * DigitValue(s[5]) + DigitValue(s[6]);
      var d := 10 * DigitValue(s[8]) + DigitValue(s[9]);
      if ValidDate(y, m, d) then Some(DayOrdinal(y, m, d)) else None
  }

  /**
   * The whole-day distance between two dates, when both are present and
   * parse; None otherwise.
   */
  function Gap(date1: Option<string>, date2: Option<string>): (r: Option<nat>)
    ensures r.Some? ==> date1.Some? && date2.Some?
    ensures r == Some(0) ==> ParseDate(date1.value) == ParseDate(date2.value)
  {
    if date1.None? || date2.None? then None
    else
      match (ParseDate(date1.value), ParseDate(date2.value))
      case (Some(o1), Some(o2)) => Some(if o1 >= o2 then o1 - o2 else o2 - o1)
      case _ => None
  }

  /**
   * `dates_close(date1_str, date2_str, max_days=10)`: false when either date
   * is absent, empty or unparsable (the exception is swallowed), otherwise
   * whether the dates are at most `maxDays` days apart.
   */
  function DatesClose(date1: Option<string>, date2: Option<string>, maxDays: int := 10): (r: bool)
    ensures r <==> Gap(date1, date2).Some? && Gap(date1, date2).value <= maxDays
  {
    if date1.None? || date1.value == "" || date2.None? || date2.value == "" then false
    else
      match (ParseDate(date1.value), ParseDate(date2.value))
      case (Some(o1), Some(o2)) => (if o1 >= o2 then o1 - o2 else o2 - o1) <= maxDays
      case _ => false
  }

  // ---------------------------------------------------------------------
  // Lemmas

  /** Formatting a valid date and parsing it back gives the date's day number. */
  lemma ParseFormat(y: nat, m: nat, d: nat)
    requires ValidDate(y, m, d)
    ensures ParseDate(FormatDate(y, m, d)) == Some(DayOrdinal(y, m, d))
  {
    var s := FormatDate(y, m, d);
    Decimal(y);
    Decimal(y / 10);
    Decimal(y / 10 / 10);
    Decimal(m);
    Decimal(d);
    assert 1000 * DigitValue(s[0]) + 100 * DigitValue(s[1]) + 10 * DigitValue(s[2]) + DigitValue(s[3]) == y;
  }

  /**
   * Every accepted text is a valid date written as `YYYY-MM-DD`, and its
   * value is that date's day number: "2024-02-30" and "2024-13-45" are
   * refused, as `strptime` refuses them.
   */
  lemma ParseDateSound(s: string)
    requires ParseDate(s).Some?
    ensures exists y: nat, m: nat, d: nat ::
      ValidDate(y, m, d) && s == FormatDate(y, m, d) && ParseDate(s) == Some(DayOrdinal(y, m, d))
  {
    var a, b, c, e := DigitValue(s[0]), DigitValue(s[1]), DigitValue(s[2]), DigitValue(s[3]);
    var y: nat := 1000 * a + 100 * b + 10 * c + e;
    var m: nat := 10 * DigitValue(s[5]) + DigitValue(s[6]);
    var d: nat := 10 * DigitValue(s[8]) + DigitValue(s[9]);
    assert ValidDate(y, m, d);
    DigitSplit(100 * a + 10 * b + c, e);
    DigitSplit(10 * a + b, c);
    DigitSplit(a, b);
    DigitSplit(DigitValue(s[5]), DigitValue(s[6]));
    DigitSplit(DigitValue(s[8]), DigitValue(s[9]));
    assert y == 10 * (100 * a + 10 * b + c) + e;
    assert 100 * a + 10 * b + c == 10 * (10 * a + b) + c;
    forall k | 0 <= k < 10 && k != 4 && k != 7 ensures Digit(DigitValue(s[k])) == s[k] {
    }
    assert s == FormatDate(y, m, d);
  }

  /** The last decimal digit of a number and the number before it. */
  lemma DigitSplit(high: nat, low: nat)
    requires low <= 9
    ensures (10 * high + low) / 10 == high && (10 * high + low) % 10 == low
  {
  }

  lemma Decimal(n: nat)
    ensures n == 10 * (n / 10) + n % 10
  {
  }

  /**
   * Going from y - 1 to y passes a multiple of 4, 100 or 400 exactly when
   * y is one.
   */
  lemma QuotientSteps(y: int)
    requires y >= 1
    ensures y / 4 - (y - 1) / 4 == (if y % 4 == 0 then 1 else 0)
    ensures y / 100 - (y - 1) / 100 == (if y % 100 == 0 then 1 else 0)
    ensures y / 400 - (y - 1) / 400 == (if y % 400 == 0 then 1 else 0)
  {
  }

  lemma DivisorChain(y: int)
    ensures y % 100 == 0 ==> y % 4 == 0
    ensures y % 400 == 0 ==> y % 100 == 0
  {
    if y % 100 == 0 {
      MultipleOfMultiple(y, 4, 25);
    }
    if y % 400 == 0 {
      MultipleOfMultiple(y, 100, 4);
    }
  }

  lemma MultipleOfMultiple(y: int, a: int, b: int)
    requires 0 < a && 0 < b && y % (a * b) == 0
    ensures y % a == 0
  {
    var q := y / (a * b);
    assert y == (a * b) * q;
    assert y == a * (b * q);
  }

  /** A year has 365 days, or 366 in a leap year. */
  lemma DaysBeforeNextYear(y: int)
    requires y >= 1
    ensures DaysBeforeYear(y + 1) == DaysBeforeYear(y) + (if IsLeapYear(y) then 366 else 365)
  {
    QuotientSteps(y);
    DivisorChain(y);
    assert DaysBeforeYear(y + 1) - DaysBeforeYear(y)
        == 365 + (y / 4 - (y - 1) / 4) - (y / 100 - (y - 1) / 100) + (y / 400 - (y - 1) / 400);
  }

  /**
   * Consecutive calendar days have consecutive day numbers, so the
   * difference of two day numbers is the number of days between the dates.
   */
  lemma NextDayOrdinal(y: int, m: int, d: int)
    requires ValidDate(y, m, d)
    ensures (y, m, d) != (9999, 12, 31) ==> ValidDate(NextDay(y, m, d).0, NextDay(y, m, d).1, NextDay(y, m, d).2)
    ensures DayOrdinal(NextDay(y, m, d).0, NextDay(y, m, d).1, NextDay(y, m, d).2) == DayOrdinal(y, m, d) + 1
  {
    if d == DaysInMonth(y, m) && m == 12 {
      DaysBeforeNextYear(y);
    }
  }

  /** Closeness does not depend on the order of the two dates. */
  lemma DatesCloseSymmetric(date1: Option<string>, date2: Option<string>, maxDays: int)
    ensures DatesClose(date1, date2, maxDays) == DatesClose(date2, date1, maxDays)
  {
  }

  /** A wider window accepts every pair a narrower one does. */
  lemma DatesCloseMonotone(date1: Option<string>, date2: Option<string>, narrow: int, wide: int)
    requires narrow <= wide
    ensures DatesClose(date1, date2, narrow) ==> DatesClose(date1, date2, wide)
  {
  }
}
