/** Calendar instants as the service reads them from `DateTime.Now` and
    `File.GetCreationTime`, the two string formats it prints them in, and the
    conversion to seconds since 1970-01-01 used by the retention rule. */
module Clock {
  import opened Text

  datatype DateTime = DateTime(year: int, month: int, day: int, hour: int, minute: int, second: int)

  predicate IsLeapYear(y: int)
  {
    y % 4 == 0 && (y % 100 != 0 || y % 400 == 0)
  }

  function YearLength(y: int): int
  {
    if IsLeapYear(y) then 366 else 365
  }

  function DaysInMonth(y: int, m: int): int
  {
    if m == 2 then (if IsLeapYear(y) then 29 else 28)
    else if m == 4 || m == 6 || m == 9 || m == 11 then 30
    else 31
  }

  /** The range of a .NET `DateTime` (to the second). */
  predicate Valid(t: DateTime)
  {
    && 1 <= t.year <= 9999
    && 1 <= t.month <= 12
    && 1 <= t.day <= DaysInMonth(t.year, t.month)
    && 0 <= t.hour < 24 && 0 <= t.minute < 60 && 0 <= t.second < 60
  }

  /** Every `DateTime` the runtime hands out is a valid calendar instant. */
  type Instant = t: DateTime | Valid(t) witness DateTime(1970, 1, 1, 0, 0, 0)

  const Epoch: Instant := DateTime(1970, 1, 1, 0, 0, 0)

  /** What `File.GetCreationTime` returns for a path that does not exist. */
  const NoSuchFileTime: Instant := DateTime(1601, 1, 1, 0, 0, 0)

  // ---------------------------------------------------------------- formats

  /** `ToString("yyyy-MM-dd")`, the name of a daily log file. */
  function DateStamp(t: Instant): (r: string)
    ensures |r| == 10 && r[4] == '-' && r[7] == '-'
  {
    Digits(t.year, 4) + "-" + Digits(t.month, 2) + "-" + Digits(t.day, 2)
  }

  /** `ToString("yyyy-MM-dd-HH:mm:ss")`, the time printed on an audit line. */
  function TimeStamp(t: Instant): (r: string)
    ensures |r| == 19 && r[..10] == DateStamp(t)
    ensures r[10] == '-' && r[13] == ':' && r[16] == ':'
  {
    DateStamp(t) + "-" + Digits(t.hour, 2) + ":" + Digits(t.minute, 2) + ":" + Digits(t.second, 2)
  }

  predicate SameDay(a: Instant, b: Instant)
  {
    a.year == b.year && a.month == b.month && a.day == b.day
  }

  /** Two instants share a date stamp exactly when they fall on the same day:
      each new day gets a log file of its own. */
  lemma DateStampInjective(a: Instant, b: Instant)
    ensures DateStamp(a) == DateStamp(b) <==> SameDay(a, b)
  {
    if DateStamp(a) == DateStamp(b) {
      var sa, sb := DateStamp(a), DateStamp(b);
      assert sa[..4] == Digits(a.year, 4) && sb[..4] == Digits(b.year, 4);
      assert sa[5..7] == Digits(a.month, 2) && sb[5..7] == Digits(b.month, 2);
      assert sa[8..10] == Digits(a.day, 2) && sb[8..10] == Digits(b.day, 2);
      DigitsRoundTrip(a.year, 4);
      DigitsRoundTrip(b.year, 4);
      DigitsRoundTrip(a.month, 2);
      DigitsRoundTrip(b.month, 2);
      DigitsRoundTrip(a.day, 2);
      DigitsRoundTrip(b.day, 2);
    }
  }

  /** The audit time stamp starts with the date of the file it is written to,
      and determines the instant to the second. */
  lemma TimeStampDetermines(a: Instant, b: Instant)
    ensures |DateStamp(a)| == 10 && TimeStamp(a)[..10] == DateStamp(a)
    ensures TimeStamp(a) == TimeStamp(b) <==> a == b
  {
    if TimeStamp(a) == TimeStamp(b) {
      var sa, sb := TimeStamp(a), TimeStamp(b);
      assert sa[..10] == DateStamp(a) && sb[..10] == DateStamp(b);
      DateStampInjective(a, b);
      assert sa[11..13] == Digits(a.hour, 2) && sb[11..13] == Digits(b.hour, 2);
      assert sa[14..16] == Digits(a.minute, 2) && sb[14..16] == Digits(b.minute, 2);
      assert sa[17..19] == Digits(a.second, 2) && sb[17..19] == Digits(b.second, 2);
      DigitsRoundTrip(a.hour, 2);
      DigitsRoundTrip(b.hour, 2);
      DigitsRoundTrip(a.minute, 2);
      DigitsRoundTrip(b.minute, 2);
      DigitsRoundTrip(a.second, 2);
      DigitsRoundTrip(b.second, 2);
    }
  }

  // ---------------------------------------------------------- unix seconds

  /** Leap years in 1..n (for n >= 0). */
  function Leaps(n: int): int
  {
    n / 4 - n / 100 + n / 400
  }

  /** Days from 1970-01-01 to January 1st of year `y`; 477 is `Leaps(1969)`. */
  function DaysBeforeYear(y: int): int
  {
    365 * (y - 1970) + Leaps(y - 1) - 477
  }

  /** Days from January 1st to the first of month `m` of year `y`. */
  function DaysBeforeMonth(y: int, m: int): int
  {
    var table := [0, 31, 59, 90, 120, 151, 181, 212, 243, 273, 304, 334];
    (if 1 <= m <= 12 then table[m - 1] else 0) + (if m > 2 && IsLeapYear(y) then 1 else 0)
  }

  function DaysSinceEpoch(t: DateTime): int
  {
    DaysBeforeYear(t.year) + DaysBeforeMonth(t.year, t.month) + t.day - 1
  }

  function SecondOfDay(t: DateTime): int
  {
    t.hour * 3600 + t.minute * 60 + t.second
  }

  /** `to_unix_timeseconds`: whole seconds from 1970-01-01 00:00:00 to `t`. */
  function ToUnixSeconds(t: DateTime): int
  {
    DaysSinceEpoch(t) * 86400 + SecondOfDay(t)
  }

  /** Strictly earlier, field by field from the year down to the second. */
  predicate Earlier(a: DateTime, b: DateTime)
  {
    || a.year < b.year
    || (a.year == b.year && a.month < b.month)
    || (a.year == b.year && a.month == b.month && a.day < b.day)
    || (a.year == b.year && a.month == b.month && a.day == b.day && SecondOfDay(a) < SecondOfDay(b))
  }

  lemma LeapStep(y: int)
    requires y >= 1
    ensures Leaps(y) - Leaps(y - 1) == (if IsLeapYear(y) then 1 else 0)
  {
    assert y / 4 - (y - 1) / 4 == (if y % 4 == 0 then 1 else 0);
    assert y / 100 - (y - 1) / 100 == (if y % 100 == 0 then 1 else 0);
    assert y / 400 - (y - 1) / 400 == (if y % 400 == 0 then 1 else 0);
    assert y % 100 == 0 ==> y % 4 == 0;
    assert y % 400 == 0 ==> y % 100 == 0;
  }

  lemma {:induction false} YearsAdvance(y1: int, y2: int)
    requires 1 <= y1 < y2
    ensures DaysBeforeYear(y1) + YearLength(y1) <= DaysBeforeYear(y2)
    decreases y2 - y1
  {
    LeapStep(y1);
    if y1 + 1 < y2 {
      YearsAdvance(y1 + 1, y2);
    }
  }

  lemma MonthsAdvance(y: int, m1: int, m2: int)
    requires 1 <= m1 < m2 <= 12
    ensures DaysBeforeMonth(y, m1) + DaysInMonth(y, m1) <= DaysBeforeMonth(y, m2)
  {
  }

  lemma DayWithinYear(t: Instant)
    ensures 0 <= DaysBeforeMonth(t.year, t.month) + t.day - 1 < YearLength(t.year)
  {
  }

  /** The conversion preserves the order of instants, so comparing ages in
      seconds agrees with comparing the calendar instants. */
  lemma UnixSecondsMonotone(a: Instant, b: Instant)
    requires Earlier(a, b)
    ensures ToUnixSeconds(a) < ToUnixSeconds(b)
  {
    var da, db := DaysSinceEpoch(a), DaysSinceEpoch(b);
    if a.year < b.year {
      DayWithinYear(a);
      YearsAdvance(a.year, b.year);
      assert da + 1 <= db;
    } else if a.month < b.month {
      MonthsAdvance(a.year, a.month, b.month);
      assert da + 1 <= db;
    }
  }

  lemma EpochSeconds()
    ensures ToUnixSeconds(Epoch) == 0
  {
    assert 1969 / 4 == 492 && 1969 / 100 == 19 && 1969 / 400 == 4;
    assert DaysBeforeMonth(1970, 1) == 0;
  }

  lemma Year2038Seconds()
    ensures ToUnixSeconds(DateTime(2038, 1, 1, 0, 0, 0)) == 2145916800
  {
    assert 2037 / 4 == 509 && 2037 / 100 == 20 && 2037 / 400 == 5;
    assert 1969 / 4 == 492 && 1969 / 100 == 19 && 1969 / 400 == 4;
    assert DaysBeforeYear(2038) == 24837;
    var t := DateTime(2038, 1, 1, 0, 0, 0);
    assert DaysBeforeMonth(2038, 1) == 0;
    assert DaysSinceEpoch(t) == 24837;
    assert SecondOfDay(t) == 0;
  }

  lemma DaysSinceEpochNonNegative(t: Instant)
    requires t.year >= 1970
    ensures DaysSinceEpoch(t) >= 0
  {
    assert 1969 / 4 == 492 && 1969 / 100 == 19 && 1969 / 400 == 4;
    assert DaysBeforeYear(1970) == 0;
    if t.year > 1970 {
      YearsAdvance(1970, t.year);
    }
  }

  /** From 1970 to 2037 the seconds fit the signed 32-bit `int` the source
      casts them to, so the model's unbounded integers lose nothing there. */
  lemma UnixSecondsFitInt32(t: Instant)
    requires 1970 <= t.year <= 2037
    ensures 0 <= ToUnixSeconds(t) < 0x8000_0000
  {
    DaysSinceEpochNonNegative(t);
    DayWithinYear(t);
    if t.year < 2037 {
      YearsAdvance(t.year, 2037);
    }
    assert DaysBeforeYear(2037) == 24472 by {
      assert 2036 / 4 == 509 && 2036 / 100 == 20 && 2036 / 400 == 5;
    }
    assert YearLength(2037) == 365;
    var days := DaysSinceEpoch(t);
    assert 0 <= days < 24837;
    assert 0 <= SecondOfDay(t) < 86400;
  }
}
