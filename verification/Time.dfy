/** `gmtime_r`, `localtime_r` and `mktime` of the C library, on a mutable `struct tm`. */
module Time {
  import opened CInt
  import opened Calendar

  const YEAR0 := 1900
  const TIME_MAX := INT32_MAX

  class Tm {
    var sec: int
    var min: int
    var hour: int
    var mday: int
    var mon: int
    var year: int
    var wday: int
    var yday: int
    var isdst: int

    constructor (c: Civil, dst: int)
      ensures Date() == c && isdst == dst
    {
      sec, min, hour, mday, mon, year := c.sec, c.min, c.hour, c.mday, c.mon, c.year - YEAR0;
      wday, yday, isdst := 0, 0, dst;
    }

    function Date(): Civil
      reads this
    {
      Civil(YEAR0 + year, mon, mday, hour, min, sec)
    }

    /** The derived fields agree with the date. */
    predicate Derived()
      reads this
    {
      && InRange(Date())
      && yday == DayOfYear(Date())
      && wday == Weekday(DayNo(YEAR0 + year, mon, mday))
    }
  }

  /** Lines 46-57 of `gmtime_r`: peels whole years, then whole months, off a day number.
      The month loop stops inside the twelve-entry table. */
  method SplitDay(day: nat, tm: Tm)
    modifies tm`year, tm`yday, tm`mon, tm`mday
    ensures 0 <= tm.mon < 12 && 1 <= tm.mday <= MonthLen(YEAR0 + tm.year, tm.mon)
    ensures DayNo(YEAR0 + tm.year, tm.mon, tm.mday) == day
    ensures tm.yday == DaysBeforeMonth(YEAR0 + tm.year, tm.mon) + tm.mday - 1
  {
    var dayno: int := day;
    var year := EPOCH_YEAR;
    while dayno >= YearSize(year)
      invariant 0 <= dayno && DaysToYear(year) + dayno == day
    {
      DaysToYearNext(year);
      dayno := dayno - YearSize(year);
      year := year + 1;
    }
    tm.year := year - YEAR0;
    tm.yday := dayno;
    tm.mon := 0;
    MonthsFillYear(year);
    while dayno >= MonthLen(year, tm.mon)
      invariant 0 <= tm.mon < 12 && 0 <= dayno
      invariant DaysBeforeMonth(year, tm.mon) + dayno == tm.yday < YearSize(year)
      modifies tm`mon
      decreases dayno
    {
      dayno := dayno - MonthLen(year, tm.mon);
      tm.mon := tm.mon + 1;
    }
    tm.mday := dayno + 1;
  }

  /** Breaks down `timer`. The source reads it as an unsigned 32-bit number, so a negative
      time denotes the instant 2^32 seconds later. */
  method Gmtime(timer: int, tm: Tm)
    requires IsInt32(timer)
    modifies tm
    ensures tm.Derived() && tm.isdst == 0
    ensures Instant(tm.Date()) == ToUint32(timer)
  {
    var time := ToUint32(timer);
    var dayclock, dayno := time % SECS_DAY, time / SECS_DAY;
    tm.sec := dayclock % 60;
    tm.min := (dayclock % 3600) / 60;
    tm.hour := dayclock / 3600;
    assert tm.hour * 3600 + tm.min * 60 + tm.sec == dayclock;
    tm.wday := (dayno + 4) % 7;
    SplitDay(dayno, tm);
    tm.isdst := 0;
  }

  method Localtime(timer: int, timezone: int, tm: Tm)
    requires IsInt32(timer) && IsInt32(timezone)
    modifies tm
    ensures tm.Derived() && tm.isdst == 0
    ensures Instant(tm.Date()) == ToUint32(timer - timezone)
  {
    UnsignedOfWrapped(timer - timezone);
    Gmtime(Wrap32(timer - timezone), tm);
  }

  /** Lines 79-96 of `mktime`: brings the clock fields into range and returns the days
      carried out of them. Each divide-and-correct step is a Euclidean division. */
  method NormaliseClock(tm: Tm) returns (day: int)
    modifies tm`sec, tm`min, tm`hour
    ensures 0 <= tm.sec < 60 && 0 <= tm.min < 60 && 0 <= tm.hour < 24
    ensures day * SECS_DAY + tm.hour * 3600 + tm.min * 60 + tm.sec
         == old(tm.hour * 3600 + tm.min * 60 + tm.sec)
  {
    tm.min := tm.min + Div(tm.sec, 60);
    tm.sec := Mod(tm.sec, 60);
    if tm.sec < 0 {
      tm.sec := tm.sec + 60;
      tm.min := tm.min - 1;
    }
    tm.hour := tm.hour + Div(tm.min, 60);
    tm.min := Mod(tm.min, 60);
    if tm.min < 0 {
      tm.min := tm.min + 60;
      tm.hour := tm.hour - 1;
    }
    day := Div(tm.hour, 24);
    tm.hour := Mod(tm.hour, 24);
    if tm.hour < 0 {
      tm.hour := tm.hour + 24;
      day := day - 1;
    }
  }

  /** Lines 97-102: carries whole years out of the month. */
  method NormaliseMonth(tm: Tm)
    modifies tm`mon, tm`year
    ensures tm.mon == old(tm.mon) % 12
    ensures tm.year == old(tm.year + tm.mon / 12)
  {
    tm.year := tm.year + Div(tm.mon, 12);
    tm.mon := Mod(tm.mon, 12);
    if tm.mon < 0 {
      tm.mon := tm.mon + 12;
      tm.year := tm.year - 1;
    }
  }

  /** Lines 104-110: moves back whole months until the day is not negative. */
  method BackMonths(tm: Tm, firstDay: int) returns (day: int)
    requires 0 <= tm.mon < 12
    modifies tm`mon, tm`year
    ensures 0 <= tm.mon < 12 && 0 <= day
    ensures DayIn(YEAR0 + tm.year, tm.mon, day + 1) == old(DayIn(YEAR0 + tm.year, tm.mon, firstDay + 1))
  {
    day := firstDay;
    while day < 0
      invariant 0 <= tm.mon < 12
      invariant DayIn(YEAR0 + tm.year, tm.mon, day + 1) == old(DayIn(YEAR0 + tm.year, tm.mon, firstDay + 1))
      decreases -day
    {
      PreviousMonth(YEAR0 + tm.year, tm.mon, day);
      tm.mon := tm.mon - 1;
      if tm.mon < 0 {
        tm.year := tm.year - 1;
        tm.mon := 11;
      }
      day := day + MonthLen(YEAR0 + tm.year, tm.mon);
    }
  }

  /** Lines 111-118: moves on whole months until the day lies inside its month. */
  method ForwardMonths(tm: Tm, firstDay: int)
    requires 0 <= tm.mon < 12 && 0 <= firstDay
    modifies tm`mday, tm`mon, tm`year
    ensures 0 <= tm.mon < 12 && 1 <= tm.mday <= MonthLen(YEAR0 + tm.year, tm.mon)
    ensures DayIn(YEAR0 + tm.year, tm.mon, tm.mday) == old(DayIn(YEAR0 + tm.year, tm.mon, firstDay + 1))
  {
    var day := firstDay;
    while day >= MonthLen(YEAR0 + tm.year, tm.mon)
      invariant 0 <= tm.mon < 12 && 0 <= day
      invariant DayIn(YEAR0 + tm.year, tm.mon, day + 1) == old(DayIn(YEAR0 + tm.year, tm.mon, firstDay + 1))
      modifies tm`mon, tm`year
      decreases day
    {
      NextMonth(YEAR0 + tm.year, tm.mon, day);
      day := day - MonthLen(YEAR0 + tm.year, tm.mon);
      tm.mon := tm.mon + 1;
      if tm.mon == 12 {
        tm.mon := 0;
        tm.year := tm.year + 1;
      }
    }
    tm.mday := day + 1;
  }

  lemma NextMonth(y: int, m: int, day: int)
    requires 0 <= m < 12
    ensures m < 11 ==> DayIn(y, m, day + 1) == DayIn(y, m + 1, day - MonthLen(y, m) + 1)
    ensures m == 11 ==> DayIn(y, m, day + 1) == DayIn(y + 1, 0, day - MonthLen(y, m) + 1)
  {
    if m == 11 {
      MonthsFillYear(y);
      DaysToYearNext(y);
    }
  }

  lemma PreviousMonth(y: int, m: int, day: int)
    requires 0 <= m < 12
    ensures m > 0 ==> DayIn(y, m, day + 1) == DayIn(y, m - 1, day + MonthLen(y, m - 1) + 1)
    ensures m == 0 ==> DayIn(y, m, day + 1) == DayIn(y - 1, 11, day + MonthLen(y - 1, 11) + 1)
  {
    if m > 0 {
      NextMonth(y, m - 1, day + MonthLen(y, m - 1));
    } else {
      NextMonth(y - 1, 11, day + MonthLen(y - 1, 11));
    }
  }

  /** Lines 79-118: the in-range form of the instant the fields denote. */
  method Normalise(tm: Tm)
    modifies tm`sec, tm`min, tm`hour, tm`mday, tm`mon, tm`year
    ensures InRange(tm.Date())
    ensures Instant(tm.Date()) == old(Instant(tm.Date()))
  {
    var day := NormaliseClock(tm);
    NormaliseMonth(tm);
    day := day + (tm.mday - 1);
    day := BackMonths(tm, day);
    ForwardMonths(tm, day);
    DayNoIsDayIn(YEAR0 + tm.year, tm.mon, tm.mday);
  }

  /** The quotient `mktime` forms for k = 4, 100 and 400, with its correction term. */
  function Multiples(year: int, k: int): int
    requires k > 0
  {
    (year - EPOCH_YEAR) / k + (if year % k != 0 && year % k < EPOCH_YEAR % k then 1 else 0)
  }

  lemma MultiplesCount(year: int)
    requires EPOCH_YEAR <= year
    ensures Multiples(year, 4) == (year - 1) / 4 - 492
    ensures Multiples(year, 100) == (year - 1) / 100 - 19
    ensures Multiples(year, 400) == (year - 1) / 400 - 4
  {
    assert Multiples(year, 4) == (year - 1) / 4 - 492 by { FourthYears(year); }
    assert Multiples(year, 100) == (year - 1) / 100 - 19 by { Centuries(year); }
    assert Multiples(year, 400) == (year - 1) / 400 - 4 by { FourthCenturies(year); }
  }

  lemma FourthYears(year: int)
    ensures (year - EPOCH_YEAR) / 4 + (if year % 4 != 0 && year % 4 < 2 then 1 else 0) == (year - 1) / 4 - 492
  {
  }

  lemma Centuries(year: int)
    ensures (year - EPOCH_YEAR) / 100 + (if year % 100 != 0 && year % 100 < 70 then 1 else 0) == (year - 1) / 100 - 19
  {
  }

  lemma FourthCenturies(year: int)
    ensures (year - EPOCH_YEAR) / 400 + (if year % 400 != 0 && year % 400 < 370 then 1 else 0) == (year - 1) / 400 - 4
  {
  }

  /** The closed form of `mktime` is the calendar's day count, and its terms are ordered so that
      no partial sum exceeds the bound the overflow test uses. */
  lemma ClosedFormIsDayCount(year: int)
    requires EPOCH_YEAR <= year
    ensures DaysToYear(year)
         == (year - EPOCH_YEAR) * 365 + Multiples(year, 4) - Multiples(year, 100) + Multiples(year, 400)
    ensures 0 <= Multiples(year, 400) <= Multiples(year, 100) <= Multiples(year, 4) <= (year - EPOCH_YEAR) / 4 + 1
  {
    DaysToYearClosedForm(year);
    MultiplesCount(year);
    assert LeapsBefore(EPOCH_YEAR) == 492 - 19 + 4;
  }

  lemma WrapEnds(a: int, b: int, c: int, d: int)
    ensures Wrap32(Wrap32(Wrap32(Wrap32(a) + b) - c) + d) == Wrap32(a + b - c + d)
  {
    hide Wrap32;
    WrapSum(a, b);
    WrapSum(a + b, -c);
    WrapSum(a + b - c, d);
  }

  /** Lines 132-137, in 32-bit arithmetic: the closed-form day count and its overflow tests.
      With no overflow noted the count is exact; otherwise the year is past the last
      representable second. */
  method CountDays(year: int) returns (day: int, overflow: nat)
    requires EPOCH_YEAR <= year
    ensures day == Wrap32(DaysToYear(year)) && IsInt32(day)
    ensures overflow == 0 ==> day == DaysToYear(year) && 0 <= day
    ensures overflow > 0 ==> DaysToYear(year) > TIME_MAX / SECS_DAY
  {
    hide DaysToYear, Multiples;
    overflow := 0;
    var n := year - EPOCH_YEAR;
    if TIME_MAX / 365 < n {
      overflow := overflow + 1;
    }
    day := Wrap32(n * 365);
    if Wrap32(TIME_MAX - day) < n / 4 + 1 {
      overflow := overflow + 1;
    }
    var fourths, centuries, cycles := Multiples(year, 4), Multiples(year, 100), Multiples(year, 400);
    ClosedFormIsDayCount(year);
    WrapEnds(n * 365, fourths, centuries, cycles);
    day := Wrap32(day + fourths);
    day := Wrap32(day - centuries);
    day := Wrap32(day + cycles);
  }

  /** What `mktime` promises: the instant of the fields taken as local time, or -1 when it,
      or the local second count, is negative or above `TIME_MAX`. */
  function MktimeValue(local: int, timezone: int, dst: int): int {
    var utc := local + timezone;
    if 0 <= local <= TIME_MAX && utc <= TIME_MAX && dst <= utc then utc - dst else -1
  }

  /** Lines 151-175: days and clock to seconds, then to UTC, with the overflow tests. */
  method AddUp(day: int, clock: int, tooLate: bool, timezone: int, dst: int, ghost days: int) returns (r: int)
    requires 0 <= clock < SECS_DAY && IsInt32(day)
    requires if tooLate then days > TIME_MAX / SECS_DAY else day == days >= 0
    requires INT32_MIN < timezone <= INT32_MAX && 0 <= dst <= INT32_MAX
    ensures r == MktimeValue(days * SECS_DAY + clock, timezone, dst)
  {
    var overflow := tooLate;
    var seconds := clock;
    if (TIME_MAX - seconds) / SECS_DAY < day {
      overflow := true;
    }
    seconds := Wrap32(seconds + Wrap32(day * SECS_DAY));
    if (timezone > 0 && TIME_MAX - timezone < seconds) || (timezone < 0 && seconds < -timezone) {
      overflow := true;
    }
    seconds := Wrap32(seconds + timezone);
    if dst > seconds {
      overflow := true;
    }
    seconds := Wrap32(seconds - dst);
    r := if overflow then -1 else seconds;
  }

  /** The weekday `mktime` works out from a day number that may not fit 32 bits. */
  function WrappedWeekday(day: int): int { Mod(Wrap32(day + 4), 7) }

  lemma WeekdayFits(day: int)
    requires 0 <= day <= TIME_MAX / SECS_DAY
    ensures WrappedWeekday(day) == Weekday(day)
  {
  }

  /** Lines 130-149: the day number and the derived fields of a date from 1970 on. */
  method DaysOf(tm: Tm) returns (day: int, tooLate: bool)
    requires InRange(tm.Date()) && tm.year >= EPOCH_YEAR - YEAR0
    modifies tm`yday, tm`wday
    ensures day == Wrap32(DayNo(YEAR0 + tm.year, tm.mon, tm.mday)) && IsInt32(day) && tm.yday == DayOfYear(tm.Date())
    ensures tm.wday == WrappedWeekday(DayNo(YEAR0 + tm.year, tm.mon, tm.mday))
    ensures !tooLate ==> day == DayNo(YEAR0 + tm.year, tm.mon, tm.mday) >= 0
    ensures tooLate ==> DayNo(YEAR0 + tm.year, tm.mon, tm.mday) > TIME_MAX / SECS_DAY
  {
    hide Wrap32, DaysToYear, DaysBeforeMonth, DayNo, Mod, YearSize;
    var overflow;
    day, overflow := CountDays(tm.year + YEAR0);
    var yday := DaysInto(tm);
    ghost var total := DaysToYear(tm.year + YEAR0) + yday;
    DateDay(tm.Date());
    OneWrap(day + yday);
    WrapSum(DaysToYear(tm.year + YEAR0), yday);
    WrapSum(total, 4);
    if Wrap32(day + yday) < 0 {
      overflow := overflow + 1;
    }
    day := Wrap32(day + yday);
    tm.yday := yday;
    tm.wday := Mod(Wrap32(day + 4), 7);
    tooLate := overflow > 0;
  }

  /** Lines 139-144: the days before the date in its year. */
  method DaysInto(tm: Tm) returns (yday: int)
    requires InRange(tm.Date())
    ensures yday == DayOfYear(tm.Date()) && 0 <= yday < 366
  {
    var tmYear, month := tm.year + YEAR0, 0;
    yday := 0;
    while month < tm.mon
      invariant 0 <= month <= tm.mon && yday == DaysBeforeMonth(tmYear, month)
      modifies {}
    {
      yday := yday + MonthLen(tmYear, month);
      month := month + 1;
    }
    yday := yday + (tm.mday - 1);
    DayOfYearInYear(tm.Date());
  }

  lemma DateDay(c: Civil)
    requires InRange(c)
    ensures DayNo(c.year, c.mon, c.mday) == DaysToYear(c.year) + DayOfYear(c)
  {
    DayNoIsDayIn(c.year, c.mon, c.mday);
  }

  /** Lines 119-175, on normalised fields. */
  method SecondsOf(tm: Tm, timezone: int, dstbias: int) returns (r: int)
    requires InRange(tm.Date())
    requires INT32_MIN < timezone <= INT32_MAX && 0 <= dstbias <= INT32_MAX
    modifies tm`yday, tm`wday
    ensures r == MktimeValue(Instant(tm.Date()), timezone, if tm.isdst != 0 then dstbias else 0)
    ensures 0 <= DayNo(YEAR0 + tm.year, tm.mon, tm.mday) <= TIME_MAX / SECS_DAY ==> tm.Derived()
    ensures tm.year < EPOCH_YEAR - YEAR0 ==> tm.yday == old(tm.yday) && tm.wday == old(tm.wday)
    ensures tm.year >= EPOCH_YEAR - YEAR0 ==>
      tm.yday == DayOfYear(tm.Date()) && tm.wday == WrappedWeekday(DayNo(YEAR0 + tm.year, tm.mon, tm.mday))
  {
    if tm.year < EPOCH_YEAR - YEAR0 {
      BeforeEpoch(tm.Date());
      return -1;
    }
    var day, tooLate := DaysOf(tm);
    if 0 <= DayNo(YEAR0 + tm.year, tm.mon, tm.mday) <= TIME_MAX / SECS_DAY {
      WeekdayFits(DayNo(YEAR0 + tm.year, tm.mon, tm.mday));
    }
    r := AddUp(day, (tm.hour * 60 + tm.min) * 60 + tm.sec, tooLate, timezone,
               if tm.isdst != 0 then dstbias else 0, DayNo(YEAR0 + tm.year, tm.mon, tm.mday));
  }

  lemma BeforeEpoch(c: Civil)
    requires InRange(c) && c.year < EPOCH_YEAR
    ensures DayNo(c.year, c.mon, c.mday) < 0 && Instant(c) < 0
  {
    DayOfYearInYear(c);
    DaysToYearMonotone(c.year, EPOCH_YEAR);
  }

  /** The whole of `mktime`, for any field values. The fields end in range, denoting the instant
      they denoted before; in-range fields stay as they are. */
  method Mktime(tm: Tm, timezone: int, dstbias: int) returns (r: int)
    requires INT32_MIN < timezone <= INT32_MAX && 0 <= dstbias <= INT32_MAX
    modifies tm
    ensures InRange(tm.Date()) && tm.isdst == old(tm.isdst)
    ensures Instant(tm.Date()) == old(Instant(tm.Date()))
    ensures old(InRange(tm.Date())) ==> tm.Date() == old(tm.Date())
    ensures r == MktimeValue(old(Instant(tm.Date())), timezone, if old(tm.isdst) != 0 then dstbias else 0)
    ensures old(tm.isdst) == 0 && 0 <= old(Instant(tm.Date())) <= TIME_MAX && 0 <= old(Instant(tm.Date())) + timezone <= TIME_MAX
            ==> r == old(Instant(tm.Date())) + timezone
    ensures old(tm.isdst) == 0 && !(0 <= old(Instant(tm.Date())) <= TIME_MAX && 0 <= old(Instant(tm.Date())) + timezone <= TIME_MAX)
            ==> r == -1
    ensures 0 <= old(Instant(tm.Date())) <= TIME_MAX ==> tm.Derived()
    ensures tm.year < EPOCH_YEAR - YEAR0 ==> tm.yday == old(tm.yday) && tm.wday == old(tm.wday)
    ensures tm.year >= EPOCH_YEAR - YEAR0 ==>
      tm.yday == DayOfYear(tm.Date()) && tm.wday == WrappedWeekday(DayNo(YEAR0 + tm.year, tm.mon, tm.mday))
  {
    ghost var before := tm.Date();
    Normalise(tm);
    r := SecondsOf(tm, timezone, dstbias);
    if InRange(before) {
      InstantDeterminesCivil(before, tm.Date());
    }
  }

  /** A second `mktime` returns the same value and changes no field, whatever the first was given and
      even where it returned -1; `mid`, `yday` and `wday` are the fields after the first. */
  method MktimeTwice(tm: Tm, timezone: int, dstbias: int) returns (once: int, twice: int, mid: Civil, yday: int, wday: int)
    requires INT32_MIN < timezone <= INT32_MAX && 0 <= dstbias <= INT32_MAX
    modifies tm
    ensures once == twice && InRange(mid) && Instant(mid) == old(Instant(tm.Date()))
    ensures tm.Date() == mid && tm.yday == yday && tm.wday == wday && tm.isdst == old(tm.isdst)
  {
    once := Mktime(tm, timezone, dstbias);
    mid, yday, wday := tm.Date(), tm.yday, tm.wday;
    twice := Mktime(tm, timezone, dstbias);
  }

  /** The same fields without and with the daylight flag: the flagged time is the plain one less the
      bias, or -1 where the plain one is -1 or smaller than the bias. */
  method MktimeBias(c: Civil, flag: int, timezone: int, dstbias: int) returns (plain: int, flagged: int)
    requires INT32_MIN < timezone <= INT32_MAX && 0 <= dstbias <= INT32_MAX && flag != 0
    ensures flagged == if plain == -1 || plain < dstbias then -1 else plain - dstbias
  {
    var tm := new Tm(c, 0);
    plain := Mktime(tm, timezone, dstbias);
    tm := new Tm(c, flag);
    flagged := Mktime(tm, timezone, dstbias);
  }

  /** `mktime(localtime_r(t))` is t exactly when t and the local time t - timezone both lie in
      0..TIME_MAX; for every other 32-bit time it is -1. */
  method LocaltimeThenMktime(t: int, timezone: int, dstbias: int) returns (r: int)
    requires IsInt32(t)
    requires INT32_MIN < timezone <= INT32_MAX && 0 <= dstbias <= INT32_MAX
    ensures r == if 0 <= t && 0 <= t - timezone <= TIME_MAX then t else -1
  {
    var tm := new Tm(Civil(YEAR0, 0, 0, 0, 0, 0), 0);
    OneWrap(t - timezone);
    Localtime(t, timezone, tm);
    r := Mktime(tm, timezone, dstbias);
  }

  /** The other way round: `gmtime_r(mktime(tm))` is the normalised form of tm. */
  method MktimeThenGmtime(c: Civil) returns (r: int, back: Civil)
    ensures 0 <= Instant(c) <= TIME_MAX ==> InRange(back) && r == Instant(back) == Instant(c)
    ensures 0 <= Instant(c) <= TIME_MAX && InRange(c) ==> back == c
  {
    var tm := new Tm(c, 0);
    r := Mktime(tm, 0, 0);
    back := tm.Date();
    if r >= 0 {
      Gmtime(r, tm);
      back := tm.Date();
      if InRange(c) {
        InstantDeterminesCivil(c, back);
      }
    }
  }
}
