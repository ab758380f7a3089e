/** The proleptic Gregorian calendar as a day count from 1970-01-01: the reference that
    every date algorithm of the system is compared with. */
module Calendar {
  const EPOCH_YEAR := 1970
  const SECS_DAY := 86400

  predicate Leap(y: int) { y % 4 == 0 && (y % 100 != 0 || y % 400 == 0) }

  function YearSize(y: int): nat { if Leap(y) then 366 else 365 }

  function MonthLen(y: int, m: int): nat
    requires 0 <= m < 12
  {
    if m == 1 then (if Leap(y) then 29 else 28)
    else if m in {3, 5, 8, 10} then 30
    else 31
  }

  /** Days from 1970-01-01 to the first of January of year `y`, negative before 1970. */
  function DaysToYear(y: int): int
    decreases if y < EPOCH_YEAR then EPOCH_YEAR - y else y - EPOCH_YEAR
  {
    if y == EPOCH_YEAR then 0
    else if y > EPOCH_YEAR then DaysToYear(y - 1) + YearSize(y - 1)
    else DaysToYear(y + 1) - YearSize(y)
  }

  function DaysBeforeMonth(y: int, m: int): nat
    requires 0 <= m <= 12
  {
    if m == 0 then 0 else DaysBeforeMonth(y, m - 1) + MonthLen(y, m - 1)
  }

  /** A broken-down time; fields may lie outside their ranges, as ISO C99 allows `mktime`. */
  datatype Civil = Civil(year: int, mon: int, mday: int, hour: int, min: int, sec: int)

  predicate InRange(c: Civil) {
    && 0 <= c.mon < 12
    && 1 <= c.mday <= MonthLen(c.year, c.mon)
    && 0 <= c.hour < 24 && 0 <= c.min < 60 && 0 <= c.sec < 60
  }

  /** Day number of day `mday`, in or out of range, of a month of the year. */
  function DayIn(year: int, mon: int, mday: int): int
    requires 0 <= mon < 12
  {
    DaysToYear(year) + DaysBeforeMonth(year, mon) + mday - 1
  }

  /** Day number of any (year, month, day) triple; the month carries into the year. */
  function DayNo(year: int, mon: int, mday: int): int { DayIn(year + mon / 12, mon % 12, mday) }

  lemma DayNoIsDayIn(year: int, mon: int, mday: int)
    requires 0 <= mon < 12
    ensures DayNo(year, mon, mday) == DayIn(year, mon, mday)
  {
    assert mon / 12 == 0 && mon % 12 == mon;
  }

  /** The instant a broken-down time denotes, in seconds from the Epoch. */
  function Instant(c: Civil): int {
    DayNo(c.year, c.mon, c.mday) * SECS_DAY + c.hour * 3600 + c.min * 60 + c.sec
  }

  function DayOfYear(c: Civil): int
    requires 0 <= c.mon < 12
  {
    DaysBeforeMonth(c.year, c.mon) + c.mday - 1
  }

  /** Days since Sunday; day 0 was a Thursday. */
  function Weekday(day: int): int { (day + 4) % 7 }

  /** The Epoch was a Thursday and the days of the week follow one another, Sunday being 0. */
  lemma WeekdayAdvances(day: int)
    ensures Weekday(0) == 4 && 0 <= Weekday(day) <= 6
    ensures Weekday(day + 1) == if Weekday(day) == 6 then 0 else Weekday(day) + 1
  {
  }

  lemma DaysToYearNext(y: int)
    ensures DaysToYear(y + 1) == DaysToYear(y) + YearSize(y)
  {
  }

  /** The twelve months make up the year. */
  lemma MonthsFillYear(y: int)
    ensures DaysBeforeMonth(y, 12) == YearSize(y)
  {
    var feb := MonthLen(y, 1);
    assert DaysBeforeMonth(y, 1) == 31 && DaysBeforeMonth(y, 2) == 31 + feb;
    assert DaysBeforeMonth(y, 3) == 62 + feb && DaysBeforeMonth(y, 4) == 92 + feb;
    assert DaysBeforeMonth(y, 5) == 123 + feb && DaysBeforeMonth(y, 6) == 153 + feb;
    assert DaysBeforeMonth(y, 7) == 184 + feb && DaysBeforeMonth(y, 8) == 215 + feb;
    assert DaysBeforeMonth(y, 9) == 245 + feb && DaysBeforeMonth(y, 10) == 276 + feb;
    assert DaysBeforeMonth(y, 11) == 306 + feb;
  }

  lemma {:induction false} DaysBeforeMonthMonotone(y: int, m: int, n: int)
    requires 0 <= m < n <= 12
    ensures DaysBeforeMonth(y, m) + MonthLen(y, m) <= DaysBeforeMonth(y, n)
    decreases n - m
  {
    if m + 1 < n {
      DaysBeforeMonthMonotone(y, m, n - 1);
    }
  }

  lemma {:induction false} DaysToYearMonotone(y: int, z: int)
    requires y < z
    ensures DaysToYear(y) + YearSize(y) <= DaysToYear(z)
    decreases z - y
  {
    DaysToYearNext(y);
    if y + 1 < z {
      DaysToYearMonotone(y + 1, z);
    }
  }

  lemma DayOfYearInYear(c: Civil)
    requires InRange(c)
    ensures 0 <= DayOfYear(c) < YearSize(c.year)
  {
    DaysBeforeMonthMonotone(c.year, c.mon, 12);
    MonthsFillYear(c.year);
  }

  lemma DayNoOrdersYears(a: Civil, b: Civil)
    requires InRange(a) && InRange(b) && a.year < b.year
    ensures DayNo(a.year, a.mon, a.mday) < DayNo(b.year, b.mon, b.mday)
  {
    DayOfYearInYear(a);
    DayOfYearInYear(b);
    DaysToYearMonotone(a.year, b.year);
  }

  lemma DayNoOrdersMonths(a: Civil, b: Civil)
    requires InRange(a) && InRange(b) && a.year == b.year && a.mon < b.mon
    ensures DayNo(a.year, a.mon, a.mday) < DayNo(b.year, b.mon, b.mday)
  {
    DaysBeforeMonthMonotone(a.year, a.mon, b.mon);
  }

  /** An instant has exactly one in-range broken-down form. Every round trip below rests on this. */
  lemma InstantDeterminesCivil(a: Civil, b: Civil)
    requires InRange(a) && InRange(b)
    requires Instant(a) == Instant(b)
    ensures a == b
  {
    var da, db := DayNo(a.year, a.mon, a.mday), DayNo(b.year, b.mon, b.mday);
    assert da == db by {
      assert 0 <= a.hour * 3600 + a.min * 60 + a.sec < SECS_DAY;
      assert 0 <= b.hour * 3600 + b.min * 60 + b.sec < SECS_DAY;
    }
    if a.year < b.year {
      DayNoOrdersYears(a, b);
    } else if b.year < a.year {
      DayNoOrdersYears(b, a);
    } else if a.mon < b.mon {
      DayNoOrdersMonths(a, b);
    } else if b.mon < a.mon {
      DayNoOrdersMonths(b, a);
    }
  }

  /** Leap days before January of year `y`, counted from year 1. */
  function LeapsBefore(y: int): int { (y - 1) / 4 - (y - 1) / 100 + (y - 1) / 400 }

  lemma QuotientSteps(y: int)
    ensures y / 4 - (y - 1) / 4 == (if y % 4 == 0 then 1 else 0)
    ensures y / 100 - (y - 1) / 100 == (if y % 100 == 0 then 1 else 0)
    ensures y / 400 - (y - 1) / 400 == (if y % 400 == 0 then 1 else 0)
  {
  }

  lemma MultiplesOf400(y: int)
    requires y % 400 == 0
    ensures y % 100 == 0
  {
    assert y == (4 * (y / 400)) * 100;
  }

  lemma MultiplesOf100(y: int)
    requires y % 100 == 0
    ensures y % 4 == 0
  {
    assert y == (25 * (y / 100)) * 4;
  }

  lemma LeapsBeforeNext(y: int)
    ensures LeapsBefore(y + 1) == LeapsBefore(y) + (if Leap(y) then 1 else 0)
  {
    QuotientSteps(y);
    if y % 400 == 0 { MultiplesOf400(y); }
    if y % 100 == 0 { MultiplesOf100(y); }
  }

  /** The recursive day count has a closed form for every year, before and after the Epoch. */
  lemma {:induction false} DaysToYearClosedForm(y: int)
    ensures DaysToYear(y) == (y - EPOCH_YEAR) * 365 + LeapsBefore(y) - LeapsBefore(EPOCH_YEAR)
    decreases if y < EPOCH_YEAR then EPOCH_YEAR - y else y - EPOCH_YEAR
  {
    if y > EPOCH_YEAR {
      DaysToYearClosedForm(y - 1);
      LeapsBeforeNext(y - 1);
    } else if y < EPOCH_YEAR {
      DaysToYearClosedForm(y + 1);
      LeapsBeforeNext(y);
    }
  }
}
