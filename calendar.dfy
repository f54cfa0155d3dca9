/** `time.gmtime` on the non-negative range a record timestamp can take:
    proleptic Gregorian UTC calendar fields of a count of seconds since
    1970-01-01 00:00:00. */
module Calendar {
  import opened Bytes

  const EPOCH_YEAR: int := 1970
  const SECONDS_PER_DAY: nat := 86400

  datatype DateTime = DateTime(year: int, month: int, day: int, hour: int, minute: int, second: int)

  predicate IsLeapYear(y: int) {
    y % 4 == 0 && (y % 100 != 0 || y % 400 == 0)
  }

  function DaysInYear(y: int): nat {
    if IsLeapYear(y) then 366 else 365
  }

  function DaysInMonth(y: int, m: int): nat
    requires 1 <= m <= 12
  {
    if m == 2 then (if IsLeapYear(y) then 29 else 28)
    else if m == 4 || m == 6 || m == 9 || m == 11 then 30
    else 31
  }

  /** Days from 1970-01-01 to the first day of year `y`. */
  function DaysBeforeYear(y: int): nat
    requires y >= EPOCH_YEAR
    decreases y - EPOCH_YEAR
  {
    if y == EPOCH_YEAR then 0 else DaysBeforeYear(y - 1) + DaysInYear(y - 1)
  }

  /** Days from the first of the year to the first of month `m`. */
  function DaysBeforeMonth(y: int, m: int): nat
    requires 1 <= m <= 12
    decreases m
  {
    if m == 1 then 0 else DaysBeforeMonth(y, m - 1) + DaysInMonth(y, m - 1)
  }

  /** A calendar reading gmtime can produce: from 1970 on, a month of the
      year, a day of that month, and a time of day. */
  predicate Valid(t: DateTime) {
    && t.year >= EPOCH_YEAR
    && 1 <= t.month <= 12
    && 1 <= t.day <= DaysInMonth(t.year, t.month)
    && 0 <= t.hour < 24 && 0 <= t.minute < 60 && 0 <= t.second < 60
  }

  /** Seconds since the epoch of a calendar reading (what `calendar.timegm`
      computes): the independent definition gmtime is checked against. */
  function EpochSeconds(t: DateTime): int
    requires Valid(t)
  {
    (DaysBeforeYear(t.year) + DaysBeforeMonth(t.year, t.month) + t.day - 1) * SECONDS_PER_DAY
      + t.hour * 3600 + t.minute * 60 + t.second
  }

  lemma DaysBeforeDecember(y: int)
    ensures DaysBeforeMonth(y, 12) + DaysInMonth(y, 12) == DaysInYear(y)
  {
    var leap := if IsLeapYear(y) then 1 else 0;
    assert DaysBeforeMonth(y, 2) == 31;
    assert DaysBeforeMonth(y, 3) == 59 + leap;
    assert DaysBeforeMonth(y, 4) == 90 + leap;
    assert DaysBeforeMonth(y, 5) == 120 + leap;
    assert DaysBeforeMonth(y, 6) == 151 + leap;
    assert DaysBeforeMonth(y, 7) == 181 + leap;
    assert DaysBeforeMonth(y, 8) == 212 + leap;
    assert DaysBeforeMonth(y, 9) == 243 + leap;
    assert DaysBeforeMonth(y, 10) == 273 + leap;
    assert DaysBeforeMonth(y, 11) == 304 + leap;
    assert DaysBeforeMonth(y, 12) == 334 + leap;
  }

  /** Splits a day count from the start of year `y` into a year and a day
      of that year. */
  function YearOf(days: nat, y: int): (r: (int, nat))
    requires y >= EPOCH_YEAR
    ensures r.0 >= y && r.1 < DaysInYear(r.0)
    ensures DaysBeforeYear(r.0) + r.1 == DaysBeforeYear(y) + days
    decreases days
  {
    if days < DaysInYear(y) then (y, days) else YearOf(days - DaysInYear(y), y + 1)
  }

  /** Splits a day count from the first of month `m` of year `y` into a
      month and a day of that month. */
  function MonthOf(y: int, days: nat, m: int): (r: (int, nat))
    requires 1 <= m <= 12
    requires DaysBeforeMonth(y, m) + days < DaysInYear(y)
    ensures m <= r.0 <= 12 && r.1 < DaysInMonth(y, r.0)
    ensures DaysBeforeMonth(y, r.0) + r.1 == DaysBeforeMonth(y, m) + days
    decreases 12 - m
  {
    if days < DaysInMonth(y, m) then (m, days)
    else
      DaysBeforeDecember(y);
      MonthOf(y, days - DaysInMonth(y, m), m + 1)
  }

  /** `time.gmtime(seconds)`: the calendar reading of a non-negative epoch
      time; it is a valid reading and denotes exactly that many seconds. */
  function Gmtime(seconds: nat): (t: DateTime)
    ensures Valid(t) && EpochSeconds(t) == seconds
  {
    var days, rem := seconds / SECONDS_PER_DAY, seconds % SECONDS_PER_DAY;
    var yd := YearOf(days, EPOCH_YEAR);
    var md := MonthOf(yd.0, yd.1, 1);
    var t := DateTime(yd.0, md.0, md.1 + 1, rem / 3600, rem % 3600 / 60, rem % 60);
    assert t.hour * 3600 + t.minute * 60 + t.second == rem;
    t
  }

  lemma {:induction false} DaysBeforeYearMonotone(a: int, b: int)
    requires EPOCH_YEAR <= a < b
    ensures DaysBeforeYear(a) + DaysInYear(a) <= DaysBeforeYear(b)
    decreases b - a
  {
    if a + 1 < b {
      DaysBeforeYearMonotone(a, b - 1);
    }
  }

  lemma {:induction false} DaysBeforeMonthMonotone(y: int, a: int, b: int)
    requires 1 <= a < b <= 12
    ensures DaysBeforeMonth(y, a) + DaysInMonth(y, a) <= DaysBeforeMonth(y, b)
    decreases b - a
  {
    if a + 1 < b {
      DaysBeforeMonthMonotone(y, a, b - 1);
    }
  }

  /** A day count splits into year and day-of-year in one way only. */
  lemma YearSplitUnique(y1: int, d1: nat, y2: int, d2: nat)
    requires y1 >= EPOCH_YEAR && y2 >= EPOCH_YEAR
    requires d1 < DaysInYear(y1) && d2 < DaysInYear(y2)
    requires DaysBeforeYear(y1) + d1 == DaysBeforeYear(y2) + d2
    ensures y1 == y2 && d1 == d2
  {
    if y1 < y2 {
      DaysBeforeYearMonotone(y1, y2);
    } else if y2 < y1 {
      DaysBeforeYearMonotone(y2, y1);
    }
  }

  /** A day of the year splits into month and day-of-month in one way only. */
  lemma MonthSplitUnique(y: int, m1: int, d1: nat, m2: int, d2: nat)
    requires 1 <= m1 <= 12 && 1 <= m2 <= 12
    requires d1 < DaysInMonth(y, m1) && d2 < DaysInMonth(y, m2)
    requires DaysBeforeMonth(y, m1) + d1 == DaysBeforeMonth(y, m2) + d2
    ensures m1 == m2 && d1 == d2
  {
    if m1 < m2 {
      DaysBeforeMonthMonotone(y, m1, m2);
    } else if m2 < m1 {
      DaysBeforeMonthMonotone(y, m2, m1);
    }
  }

  /** Different valid readings denote different instants. */
  lemma EpochSecondsInjective(t1: DateTime, t2: DateTime)
    requires Valid(t1) && Valid(t2) && EpochSeconds(t1) == EpochSeconds(t2)
    ensures t1 == t2
  {
    var doy1 := DaysBeforeMonth(t1.year, t1.month) + t1.day - 1;
    var doy2 := DaysBeforeMonth(t2.year, t2.month) + t2.day - 1;
    var tod1 := t1.hour * 3600 + t1.minute * 60 + t1.second;
    var tod2 := t2.hour * 3600 + t2.minute * 60 + t2.second;
    DivModUnique(DaysBeforeYear(t1.year) + doy1, tod1, DaysBeforeYear(t2.year) + doy2, tod2, SECONDS_PER_DAY);
    DaysBeforeDecember(t1.year);
    DaysBeforeDecember(t2.year);
    DaysInMonthBound(t1.year, t1.month);
    DaysInMonthBound(t2.year, t2.month);
    YearSplitUnique(t1.year, doy1, t2.year, doy2);
    MonthSplitUnique(t1.year, t1.month, t1.day - 1, t2.month, t2.day - 1);
    DivModUnique(t1.hour, t1.minute * 60 + t1.second, t2.hour, t2.minute * 60 + t2.second, 3600);
    DivModUnique(t1.minute, t1.second, t2.minute, t2.second, 60);
  }

  /** A day of the year is below the year's length. */
  lemma DaysInMonthBound(y: int, m: int)
    requires 1 <= m <= 12
    ensures DaysBeforeMonth(y, m) + DaysInMonth(y, m) <= DaysInYear(y)
  {
    DaysBeforeDecember(y);
    if m < 12 {
      DaysBeforeMonthMonotone(y, m, 12);
    }
  }

  /** gmtime is the inverse of EpochSeconds: the one valid reading that
      denotes `seconds` is the one it returns. */
  lemma GmtimeUnique(seconds: nat, t: DateTime)
    requires Valid(t) && EpochSeconds(t) == seconds
    ensures Gmtime(seconds) == t
  {
    EpochSecondsInjective(Gmtime(seconds), t);
  }

  lemma {:induction false} DaysBeforeYearAtLeast(y: int)
    requires y >= EPOCH_YEAR
    ensures DaysBeforeYear(y) >= 365 * (y - EPOCH_YEAR)
    decreases y - EPOCH_YEAR
  {
    if y > EPOCH_YEAR {
      DaysBeforeYearAtLeast(y - 1);
    }
  }

  /** Any unsigned 32-bit epoch time falls in a year that prints in four
      digits (it is at most 2106). */
  lemma GmtimeYearOfU32(seconds: nat)
    requires seconds < 0x1_0000_0000
    ensures EPOCH_YEAR <= Gmtime(seconds).year <= 2106
  {
    var t := Gmtime(seconds);
    DaysBeforeYearAtLeast(t.year);
    var days := DaysBeforeYear(t.year) + DaysBeforeMonth(t.year, t.month) + t.day - 1;
    assert days * SECONDS_PER_DAY <= seconds;
    assert days >= 365 * (t.year - EPOCH_YEAR);
  }
}
