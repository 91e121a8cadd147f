/**
 * `datetime.utcfromtimestamp(t).strftime('%Y-%m-%dT%H:%M:%S.000Z')` for an
 * integer `t`: epoch seconds to a proleptic Gregorian UTC calendar time, and
 * its rendering. The conversion is specified against `EpochSeconds`, the
 * closed-form count of seconds a calendar time denotes.
 */
module UtcTime {
  import opened Wrappers
  import Decimal

  const SecondsPerDay: int := 86400
  /** 0001-01-01T00:00:00Z and 9999-12-31T23:59:59Z, the range of Python's `datetime`. */
  const MinSeconds: int := -62135596800
  const MaxSeconds: int := 253402300799

  datatype DateTime = DateTime(year: int, month: int, day: int, hour: int, minute: int, second: int)

  predicate IsLeapYear(y: int) {
    y % 4 == 0 && (y % 100 != 0 || y % 400 == 0)
  }

  function DaysInYear(y: int): int {
    if IsLeapYear(y) then 366 else 365
  }

  function DaysInMonth(y: int, m: int): int
    requires 1 <= m <= 12
  {
    if m == 2 then (if IsLeapYear(y) then 29 else 28)
    else if m == 4 || m == 6 || m == 9 || m == 11 then 30
    else 31
  }

  /** A calendar time Python's `datetime` can hold. */
  predicate Valid(t: DateTime) {
    && 1 <= t.year <= 9999
    && 1 <= t.month <= 12
    && 1 <= t.day <= DaysInMonth(t.year, t.month)
    && 0 <= t.hour < 24 && 0 <= t.minute < 60 && 0 <= t.second < 60
  }

  /** Days from 1970-01-01 to January 1st of year `y`. */
  function DaysBeforeYear(y: int): int {
    var p := y - 1;
    365 * p + p / 4 - p / 100 + p / 400 - 719162
  }

  /** Days from January 1st of year `y` to the first of month `m`; month 13 gives the whole year. */
  function DaysBeforeMonth(y: int, m: int): int
    requires 1 <= m <= 13
  {
    var common :=
      if m <= 6 then
        if m == 1 then 0 else if m == 2 then 31 else if m == 3 then 59
        else if m == 4 then 90 else if m == 5 then 120 else 151
      else
        if m == 7 then 181 else if m == 8 then 212 else if m == 9 then 243
        else if m == 10 then 273 else if m == 11 then 304 else if m == 12 then 334 else 365;
    if m > 2 && IsLeapYear(y) then common + 1 else common
  }

  /** The day of a calendar time, counted from 1970-01-01. */
  function DayNumber(t: DateTime): int
    requires 1 <= t.month <= 12
  {
    DaysBeforeYear(t.year) + DaysBeforeMonth(t.year, t.month) + t.day - 1
  }

  /** The seconds since 1970-01-01T00:00:00Z that a calendar time denotes. */
  function EpochSeconds(t: DateTime): int
    requires 1 <= t.month <= 12
  {
    DayNumber(t) * SecondsPerDay
      + t.hour * 3600 + t.minute * 60 + t.second
  }

  /** Floor division by a positive constant grows by one exactly at its multiples. */
  lemma FloorStep(y: int, k: int)
    requires k == 4 || k == 100 || k == 400
    ensures y / k == (y - 1) / k + (if y % k == 0 then 1 else 0)
  {
    var q, r := (y - 1) / k, (y - 1) % k;
    assert y == k * q + r + 1;
    if r + 1 == k {
      assert y == k * (q + 1);
    } else {
      assert 0 <= r + 1 < k;
    }
  }

  /** A multiple of 400 is a multiple of 100, and a multiple of 100 a multiple of 4. */
  lemma MultipleSteps(y: int)
    ensures y % 400 == 0 ==> y % 100 == 0
    ensures y % 100 == 0 ==> y % 4 == 0
  {
    if y % 400 == 0 {
      var q := y / 400;
      assert y == 100 * (4 * q) + 0;
      DivisionUnique(y, 100, 4 * q, 0);
    }
    if y % 100 == 0 {
      var q := y / 100;
      assert y == 4 * (25 * q) + 0;
      DivisionUnique(y, 4, 25 * q, 0);
    }
  }

  /** Euclidean division has one quotient and one remainder. */
  lemma DivisionUnique(y: int, k: int, q: int, r: int)
    requires k == 4 || k == 100
    requires y == k * q + r && 0 <= r < k
    ensures y % k == r
  {
  }

  lemma YearStep(y: int)
    ensures DaysBeforeYear(y + 1) == DaysBeforeYear(y) + DaysInYear(y)
  {
    var p := y - 1;
    assert DaysBeforeYear(y) == 365 * p + p / 4 - p / 100 + p / 400 - 719162;
    assert DaysBeforeYear(y + 1) == 365 * p + 365 + y / 4 - y / 100 + y / 400 - 719162;
    FloorStep(y, 4);
    FloorStep(y, 100);
    FloorStep(y, 400);
    MultipleSteps(y);
  }

  lemma {:induction false} YearMonotone(a: int, b: int)
    requires a <= b
    ensures DaysBeforeYear(a) <= DaysBeforeYear(b)
    decreases b - a
  {
    if a < b {
      YearMonotone(a, b - 1);
      YearStep(b - 1);
    }
  }

  lemma MonthStep(y: int, m: int)
    requires 1 <= m <= 12
    ensures DaysBeforeMonth(y, m + 1) == DaysBeforeMonth(y, m) + DaysInMonth(y, m)
  {
  }

  /** The year holding day `n` (counted from 1970-01-01), searching upwards from `y`. */
  function YearAtOrAfter(n: int, y: int): (r: int)
    requires DaysBeforeYear(y) <= n
    ensures DaysBeforeYear(r) <= n < DaysBeforeYear(r + 1)
    decreases n - DaysBeforeYear(y)
  {
    YearStep(y);
    if n < DaysBeforeYear(y + 1) then y else YearAtOrAfter(n, y + 1)
  }

  /** The year holding day `n`, searching downwards from `y`. */
  function YearAtOrBefore(n: int, y: int): (r: int)
    requires n < DaysBeforeYear(y + 1)
    ensures DaysBeforeYear(r) <= n < DaysBeforeYear(r + 1)
    decreases DaysBeforeYear(y + 1) - n
  {
    YearStep(y);
    if DaysBeforeYear(y) <= n then y else YearAtOrBefore(n, y - 1)
  }

  function YearOfDay(n: int): (r: int)
    ensures DaysBeforeYear(r) <= n < DaysBeforeYear(r + 1)
  {
    if DaysBeforeYear(1970) <= n then YearAtOrAfter(n, 1970) else YearAtOrBefore(n, 1969)
  }

  /** The month of year `y` holding day `d` of that year, searching upwards from `m`. */
  function MonthAtOrAfter(y: int, d: int, m: int): (r: int)
    requires 1 <= m <= 12 && DaysBeforeMonth(y, m) <= d < DaysInYear(y)
    ensures 1 <= r <= 12 && DaysBeforeMonth(y, r) <= d < DaysBeforeMonth(y, r + 1)
    decreases 12 - m
  {
    if d < DaysBeforeMonth(y, m + 1) then m else MonthAtOrAfter(y, d, m + 1)
  }

  /** The calendar date (at midnight) of day `n` counted from 1970-01-01. */
  function DateOfDay(n: int): (r: DateTime)
    ensures 1 <= r.month <= 12 && 1 <= r.day <= DaysInMonth(r.year, r.month)
    ensures r.hour == 0 && r.minute == 0 && r.second == 0
    ensures DayNumber(r) == n
    ensures r.year == YearOfDay(n)
  {
    var y := YearOfDay(n);
    YearStep(y);
    var d := n - DaysBeforeYear(y);
    var m := MonthAtOrAfter(y, d, 1);
    MonthStep(y, m);
    DateTime(y, m, d - DaysBeforeMonth(y, m) + 1, 0, 0, 0)
  }

  /** Day `n` falls in years 1..9999 exactly when it lies between their first and last day. */
  lemma YearInRange(n: int)
    ensures 1 <= YearOfDay(n) <= 9999 <==> DaysBeforeYear(1) <= n < DaysBeforeYear(10000)
  {
    var y := YearOfDay(n);
    if 1 <= y {
      YearMonotone(1, y);
    } else {
      YearMonotone(y + 1, 1);
    }
    if y <= 9999 {
      YearMonotone(y + 1, 10000);
    } else {
      YearMonotone(10000, y);
    }
  }

  /**
   * `datetime.utcfromtimestamp(t)`: floor division into days and seconds of
   * the day; `None` where Python raises because the year leaves 1..9999.
   */
  function FromEpochSeconds(t: int): (r: Option<DateTime>)
    ensures r.Some? <==> MinSeconds <= t <= MaxSeconds
    ensures r.Some? ==> Valid(r.value) && EpochSeconds(r.value) == t
  {
    var n := t / SecondsPerDay;
    var s := t % SecondsPerDay;
    var date := DateOfDay(n);
    YearInRange(n);
    SecondsInRange(t);
    TimeOfDay(s);
    if 1 <= date.year <= 9999 then
      Some(date.(hour := s / 3600, minute := s % 3600 / 60, second := s % 60))
    else
      None
  }

  lemma SecondsInRange(t: int)
    ensures MinSeconds <= t <= MaxSeconds <==> DaysBeforeYear(1) <= t / SecondsPerDay < DaysBeforeYear(10000)
    ensures t / SecondsPerDay * SecondsPerDay + t % SecondsPerDay == t
  {
  }

  lemma TimeOfDay(s: int)
    requires 0 <= s < SecondsPerDay
    ensures 0 <= s / 3600 < 24 && 0 <= s % 3600 / 60 < 60 && 0 <= s % 60 < 60
    ensures s / 3600 * 3600 + s % 3600 / 60 * 60 + s % 60 == s
  {
  }

  /** `strftime('%Y-%m-%dT%H:%M:%S.000Z')`. */
  function Render(t: DateTime): (s: string)
    requires Valid(t)
    ensures |s| == 24
  {
    Decimal.Padded(t.year, 4) + "-" + Decimal.Padded(t.month, 2) + "-" + Decimal.Padded(t.day, 2)
      + "T" + Decimal.Padded(t.hour, 2) + ":" + Decimal.Padded(t.minute, 2) + ":" + Decimal.Padded(t.second, 2)
      + ".000Z"
  }

  /** Reads a `YYYY-MM-DDTHH:MM:SS.000Z` string back into its fields. */
  function ParseRendered(s: string): Option<DateTime> {
    if && |s| == 24
       && Decimal.AllDigits(s[0..4]) && s[4] == '-' && Decimal.AllDigits(s[5..7]) && s[7] == '-'
       && Decimal.AllDigits(s[8..10]) && s[10] == 'T' && Decimal.AllDigits(s[11..13]) && s[13] == ':'
       && Decimal.AllDigits(s[14..16]) && s[16] == ':' && Decimal.AllDigits(s[17..19]) && s[19..] == ".000Z"
    then
      Some(DateTime(Decimal.DigitsValue(s[0..4]), Decimal.DigitsValue(s[5..7]), Decimal.DigitsValue(s[8..10]),
                    Decimal.DigitsValue(s[11..13]), Decimal.DigitsValue(s[14..16]), Decimal.DigitsValue(s[17..19])))
    else
      None
  }

  /** The rendering loses nothing: every field of a valid calendar time reads back. */
  lemma ParseRender(t: DateTime)
    requires Valid(t)
    ensures ParseRendered(Render(t)) == Some(t)
  {
    var s := Render(t);
    assert s[0..4] == Decimal.Padded(t.year, 4);
    assert s[5..7] == Decimal.Padded(t.month, 2);
    assert s[8..10] == Decimal.Padded(t.day, 2);
    assert s[11..13] == Decimal.Padded(t.hour, 2);
    assert s[14..16] == Decimal.Padded(t.minute, 2);
    assert s[17..19] == Decimal.Padded(t.second, 2);
    assert s[19..] == ".000Z";
    assert Decimal.Pow10(2) == 100 && Decimal.Pow10(4) == 10000;
    Decimal.PaddedValue(t.year, 4);
    Decimal.PaddedValue(t.month, 2);
    Decimal.PaddedValue(t.day, 2);
    Decimal.PaddedValue(t.hour, 2);
    Decimal.PaddedValue(t.minute, 2);
    Decimal.PaddedValue(t.second, 2);
  }

  /** Two valid calendar times denoting the same instant are the same. */
  lemma EpochSecondsInjective(a: DateTime, b: DateTime)
    requires Valid(a) && Valid(b) && EpochSeconds(a) == EpochSeconds(b)
    ensures a == b
  {
    FromEpochSecondsOfValid(a);
    FromEpochSecondsOfValid(b);
  }

  /** Converting back the instant a valid calendar time denotes gives that calendar time. */
  lemma FromEpochSecondsOfValid(t: DateTime)
    requires Valid(t)
    ensures FromEpochSeconds(EpochSeconds(t)) == Some(t)
  {
    var n := DayNumber(t);
    var s := t.hour * 3600 + t.minute * 60 + t.second;
    var e := EpochSeconds(t);
    assert e / SecondsPerDay == n && e % SecondsPerDay == s by {
      assert e == n * SecondsPerDay + s;
      SplitSeconds(n, s);
    }
    assert DateOfDay(n) == t.(hour := 0, minute := 0, second := 0) by {
      DateOfDayOfValid(t);
    }
    assert s / 3600 == t.hour && s % 3600 / 60 == t.minute && s % 60 == t.second by {
      SplitTime(t.hour, t.minute, t.second);
    }
  }

  /** The day search finds the date of a valid calendar time. */
  lemma DateOfDayOfValid(t: DateTime)
    requires Valid(t)
    ensures DateOfDay(DayNumber(t))
            == t.(hour := 0, minute := 0, second := 0)
  {
    var r := DateOfDay(DayNumber(t));
    YearOfValid(t);
    MonthsDisjoint(t.year, r.month, r.day, t.month, t.day);
  }

  lemma YearOfValid(t: DateTime)
    requires Valid(t)
    ensures YearOfDay(DayNumber(t)) == t.year
  {
    MonthStep(t.year, t.month);
    MonthMonotone(t.year, t.month + 1, 13);
    YearStep(t.year);
    YearOfDayUnique(DayNumber(t), t.year);
  }

  /** Months own disjoint ranges of the days of a year. */
  lemma MonthsDisjoint(y: int, a: int, da: int, b: int, db: int)
    requires 1 <= a <= 12 && 1 <= da <= DaysInMonth(y, a)
    requires 1 <= b <= 12 && 1 <= db <= DaysInMonth(y, b)
    requires DaysBeforeMonth(y, a) + da == DaysBeforeMonth(y, b) + db
    ensures a == b && da == db
  {
    MonthStep(y, a);
    MonthStep(y, b);
    if a < b {
      MonthMonotone(y, a + 1, b);
    } else if b < a {
      MonthMonotone(y, b + 1, a);
    }
  }

  lemma SplitTime(h: int, m: int, s: int)
    requires 0 <= h < 24 && 0 <= m < 60 && 0 <= s < 60
    ensures var x := h * 3600 + m * 60 + s; x / 3600 == h && x % 3600 / 60 == m && x % 60 == s
  {
  }

  lemma SplitSeconds(n: int, s: int)
    requires 0 <= s < SecondsPerDay
    ensures (n * SecondsPerDay + s) / SecondsPerDay == n && (n * SecondsPerDay + s) % SecondsPerDay == s
  {
  }

  /** Years own disjoint ranges of days, so the search finds the only year holding `n`. */
  lemma YearOfDayUnique(n: int, y: int)
    requires DaysBeforeYear(y) <= n < DaysBeforeYear(y + 1)
    ensures YearOfDay(n) == y
  {
    var r := YearOfDay(n);
    if r < y {
      YearMonotone(r + 1, y);
    } else if r > y {
      YearMonotone(y + 1, r);
    }
  }

  lemma MonthMonotone(y: int, a: int, b: int)
    requires 1 <= a <= b <= 13
    ensures DaysBeforeMonth(y, a) <= DaysBeforeMonth(y, b)
  {
  }
}
