/** The CMOS clock reader: BCD fields to seconds since the Epoch, in unsigned 32-bit arithmetic. */
module Cmos {
  import opened CInt
  import opened Calendar
  import Time

  /** The six registers of one stable read. */
  datatype Registers = Registers(second: nat, minute: nat, hour: nat, day: nat, month: nat, year: nat)

  function FromBcd(v: nat): nat { (v / 16) * 10 + v % 16 }

  /** Binary-coded decimal of a two-digit number: what the clock chip stores. */
  function ToBcd(n: nat): nat
    requires n < 100
  {
    (n / 10) * 16 + n % 10
  }

  /** The registers hold the date `c`, a valid date of 2000..2099. */
  predicate Holds(r: Registers, c: Civil) {
    && InRange(c) && 2000 <= c.year < 2100
    && r == Registers(ToBcd(c.sec), ToBcd(c.min), ToBcd(c.hour), ToBcd(c.mday), ToBcd(c.mon + 1), ToBcd(c.year - 2000))
  }

  /** One decimal digit in each half of the byte. */
  lemma BcdDigits(tens: nat, units: nat)
    requires tens < 10 && units < 10
    ensures ToBcd(10 * tens + units) == 16 * tens + units && FromBcd(16 * tens + units) == 10 * tens + units
  {
  }

  lemma BcdRoundTrip(n: nat)
    requires n < 100
    ensures FromBcd(ToBcd(n)) == n
  {
  }

  /** Counts the days of the years `years + 2000` down to 1970. */
  method SecsOfYears(years: int) returns (secs: nat)
    ensures secs == if years + 2000 > 1969 then ToUint32(DaysToYear(years + 2001) * SECS_DAY) else 0
  {
    var days := 0;
    var y := years + 2000;
    while y > 1969
      invariant y <= years + 2000 && 0 <= days
      invariant if years + 2000 > 1969 then 1969 <= y && days + DaysToYear(y + 1) == DaysToYear(years + 2001) else days == 0
    {
      days := days + 365;
      if y % 4 == 0 {
        if y % 100 == 0 {
          if y % 400 == 0 {
            days := days + 1;
          }
        } else {
          days := days + 1;
        }
      }
      y := y - 1;
    }
    secs := ToUint32(days * SECS_DAY);
  }

  /** The fall-through switch: from case `months` down to case 1. */
  method SecsOfMonth(months: int, year: int) returns (secs: nat)
    ensures secs == if 0 <= months <= 11 then DaysBeforeMonth(year + 2000, months) * SECS_DAY else 0
  {
    var y := year + 2000;
    var days := 0;
    if months == 11 { days := days + 30; }
    if 10 <= months <= 11 { days := days + 31; }
    if 9 <= months <= 11 { days := days + 30; }
    if 8 <= months <= 11 { days := days + 31; }
    if 7 <= months <= 11 { days := days + 31; }
    if 6 <= months <= 11 { days := days + 30; }
    if 5 <= months <= 11 { days := days + 31; }
    if 4 <= months <= 11 { days := days + 30; }
    if 3 <= months <= 11 { days := days + 31; }
    if 2 <= months <= 11 {
      days := days + 28;
      if y % 4 == 0 && (y % 100 != 0 || y % 400 == 0) {
        days := days + 1;
      }
    }
    if 1 <= months <= 11 { days := days + 31; }
    if 0 <= months <= 11 {
      CumulativeDays(y, months);
    }
    secs := ToUint32(days * SECS_DAY);
  }

  /** Days before each month, by the table a reader would check the switch against. */
  lemma CumulativeDays(y: int, m: int)
    requires 0 <= m <= 11
    ensures DaysBeforeMonth(y, m)
         == [0, 31, 59, 90, 120, 151, 181, 212, 243, 273, 304, 334][m] + (if m >= 2 && Leap(y) then 1 else 0)
  {
    if m > 0 {
      CumulativeDays(y, m - 1);
    }
  }

  lemma HoldsDecodes(r: Registers, c: Civil)
    requires Holds(r, c)
    ensures FromBcd(r.second) == c.sec && FromBcd(r.minute) == c.min && FromBcd(r.hour) == c.hour
    ensures FromBcd(r.day) == c.mday && FromBcd(r.month) == c.mon + 1 && FromBcd(r.year) == c.year - 2000
  {
    BcdRoundTrip(c.sec);
    BcdRoundTrip(c.min);
    BcdRoundTrip(c.hour);
    BcdRoundTrip(c.mday);
    BcdRoundTrip(c.mon + 1);
    BcdRoundTrip(c.year - 2000);
  }

  /** The sum at the end of `read_cmos`, over the decoded fields. */
  method SumFields(second: nat, minute: nat, hour: nat, day: nat, month: nat, year: nat) returns (time: nat)
    requires InRange(Civil(2000 + year, month - 1, day, hour, minute, second)) && year < 100
    ensures time == Instant(Civil(2000 + year, month - 1, day, hour, minute, second)) < UINT32_SIZE
  {
    CenturyFits(Civil(2000 + year, month - 1, day, hour, minute, second));
    var yearSecs := SecsOfYears(year - 1);
    var monthSecs := SecsOfMonth(month - 1, year);
    time := ToUint32(yearSecs + monthSecs + (day - 1) * 86400 + hour * 3600 + minute * 60 + second);
  }

  /** The value `read_cmos` returns is the instant of the date the registers hold. */
  method ReadCmos(r: Registers, ghost c: Civil) returns (time: nat)
    requires Holds(r, c)
    ensures time == Instant(c) < UINT32_SIZE
  {
    HoldsDecodes(r, c);
    time := SumFields(FromBcd(r.second), FromBcd(r.minute), FromBcd(r.hour),
                      FromBcd(r.day), FromBcd(r.month), FromBcd(r.year));
  }

  lemma DaysTo2100()
    ensures DaysToYear(2100) == 47482
  {
    DaysToYearClosedForm(2100);
  }

  /** Every date up to 2099 fits 32 unsigned bits. */
  lemma CenturyFits(c: Civil)
    requires InRange(c) && 2000 <= c.year < 2100
    ensures 0 <= DaysToYear(c.year) && DayNo(c.year, c.mon, c.mday) < 47482
    ensures 0 <= Instant(c) < UINT32_SIZE
  {
    DayOfYearInYear(c);
    DaysTo2100();
    DaysToYearMonotone(EPOCH_YEAR, c.year);
    DaysToYearMonotone(c.year, 2100);
  }

  /** The CMOS time decodes through `gmtime_r` to the date the registers held, up to 2099:
      both sides are unsigned, so the year 2038 is no limit here. */
  method ReadCmosThenGmtime(r: Registers, ghost c: Civil) returns (tm: Time.Tm)
    requires Holds(r, c)
    ensures tm.Date() == c && tm.Derived()
  {
    assert InRange(c);
    var time := ReadCmos(r, c);
    tm := new Time.Tm(Civil(0, 0, 0, 0, 0, 0), 0);
    UnsignedOfWrapped(time);
    Time.Gmtime(Wrap32(time), tm);
    InstantDeterminesCivil(tm.Date(), c);
  }
}
