/** The `%V`, `%G` and `%g` conversions of `strftime`: ISO 8601 week number and week year. */
module IsoWeek {
  import opened Calendar

  const DAYSPERWEEK := 7

  /** Monday is 1 and Sunday 7, as in ISO 8601. */
  function IsoWeekday(wday: int): int { if wday == 0 then 7 else wday }

  /** Day-of-year, relative to the given year, of the Thursday of the week of a day. */
  function ThursdayOf(yday: int, wday: int): int { yday + 4 - IsoWeekday(wday) }

  /** The week's year and number by the standard's rule: the year its Thursday lies in, and the
      number of Thursdays of that year up to it. */
  function IsoYear(year: int, yday: int, wday: int): int {
    var th := ThursdayOf(yday, wday);
    if th < 0 then year - 1 else if th >= YearSize(year) then year + 1 else year
  }

  function IsoWeekNumber(year: int, yday: int, wday: int): int {
    var th := ThursdayOf(yday, wday);
    if th < 0 then 1 + (th + YearSize(year - 1)) / 7
    else if th >= YearSize(year) then 1 + (th - YearSize(year)) / 7
    else 1 + th / 7
  }

  /** One turn's thresholds: `bot` is the Monday of week 1, `top` the Monday of week 1 of the
      next year, both as days of the year `yday` counts from. */
  lemma Thresholds(len: int, yday: int, wday: int, bot: int, top: int)
    requires 0 <= wday <= 6 && 0 <= yday && (len == 365 || len == 366)
    requires bot == (yday + 11 - wday) % DAYSPERWEEK - 3
    requires top == (var t := bot - len % DAYSPERWEEK; (if t < -3 then t + DAYSPERWEEK else t) + len)
    ensures -3 <= bot <= 3 && len - 3 <= top <= len + 3
    ensures yday >= top <==> ThursdayOf(yday, wday) >= len
    ensures yday >= bot <==> ThursdayOf(yday, wday) >= 0
    ensures yday >= bot ==> (yday - bot) / 7 == ThursdayOf(yday, wday) / 7
  {
  }

  /** The correcting loop, for any day inside its year and any weekday. It ends within two
      turns with the standard's week and year. */
  method Compute(tmYear: int, tmYday: int, tmWday: int) returns (year: int, w: int, ghost turns: nat)
    requires 0 <= tmYday < YearSize(tmYear + 1900)
    requires 0 <= tmWday <= 6
    ensures year == IsoYear(tmYear + 1900, tmYday, tmWday)
    ensures w == IsoWeekNumber(tmYear + 1900, tmYday, tmWday)
    ensures 1 <= turns <= 2
  {
    year := tmYear + 1900;
    var yday, wday := tmYday, tmWday;
    turns := 0;
    while true
      invariant turns <= 1
      invariant turns == 0 ==> year == tmYear + 1900 && yday == tmYday
      invariant turns == 1 ==> year == tmYear + 1899 && yday == tmYday + YearSize(year) && ThursdayOf(tmYday, wday) < 0
      decreases 2 - turns
    {
      turns := turns + 1;
      var len := if Leap(year) then 366 else 365;
      var bot := (yday + 11 - wday) % DAYSPERWEEK - 3;
      var top := bot - len % DAYSPERWEEK;
      if top < -3 {
        top := top + DAYSPERWEEK;
      }
      top := top + len;
      Thresholds(len, yday, wday, bot, top);
      if yday >= top {
        year := year + 1;
        w := 1;
        break;
      }
      if yday >= bot {
        w := 1 + (yday - bot) / DAYSPERWEEK;
        break;
      }
      year := year - 1;
      yday := yday + (if Leap(year) then 366 else 365);
    }
  }

  /** The week number lies in 1..53. */
  lemma WeekInRange(year: int, yday: int, wday: int)
    requires 0 <= yday < YearSize(year) && 0 <= wday <= 6
    ensures 1 <= IsoWeekNumber(year, yday, wday) <= 53
  {
  }

  /** Day number of the Thursday of the Monday-to-Sunday week that holds day `d`. */
  function ThursdayDay(d: int): int { d - (d + 3) % 7 + 3 }

  lemma ThursdayDistance(d: int)
    ensures ThursdayDay(d) - d == 4 - IsoWeekday(Weekday(d)) && 0 <= Weekday(d) <= 6
  {
  }

  /** `ThursdayDay(d)` is a Thursday at most three days from `d`, and the only one. */
  lemma ThursdayIs(d: int)
    ensures Weekday(ThursdayDay(d)) == 4 && -3 <= ThursdayDay(d) - d <= 3
    ensures forall t :: Weekday(t) == 4 && -3 <= t - d <= 3 ==> t == ThursdayDay(d)
  {
  }

  lemma ThursdayInItsYear(year: int, yday: int, wday: int)
    requires 0 <= yday < YearSize(year) && 0 <= wday <= 6
    ensures var y := IsoYear(year, yday, wday);
            var th := DaysToYear(year) + ThursdayOf(yday, wday);
            && DaysToYear(y) <= th < DaysToYear(y + 1)
            && IsoWeekNumber(year, yday, wday) == 1 + (th - DaysToYear(y)) / 7
  {
    DaysToYearNext(year - 1);
    DaysToYearNext(year);
    DaysToYearNext(year + 1);
  }

  /** For a real date (its weekday is its day number's), the week and year are those of the
      Thursday counted in days from the Epoch, so all seven days of a week agree. */
  lemma WeekOfDate(c: Civil)
    requires InRange(c)
    ensures var d := DayNo(c.year, c.mon, c.mday);
            var y := IsoYear(c.year, DayOfYear(c), Weekday(d));
            && DaysToYear(y) <= ThursdayDay(d) < DaysToYear(y + 1)
            && IsoWeekNumber(c.year, DayOfYear(c), Weekday(d)) == 1 + (ThursdayDay(d) - DaysToYear(y)) / 7
  {
    hide IsoYear, IsoWeekNumber, ThursdayDay, Weekday, IsoWeekday, DayNo, DaysToYear, DaysBeforeMonth, YearSize, Leap;
    var d := DayNo(c.year, c.mon, c.mday);
    DayNoIsDayIn(c.year, c.mon, c.mday);
    DayOfYearInYear(c);
    ThursdayDistance(d);
    ThursdayInItsYear(c.year, DayOfYear(c), Weekday(d));
  }

  /** Two dates of the same Monday-to-Sunday week get the same week number and year. */
  lemma SameWeekSameName(a: Civil, b: Civil)
    requires InRange(a) && InRange(b)
    requires ThursdayDay(DayNo(a.year, a.mon, a.mday)) == ThursdayDay(DayNo(b.year, b.mon, b.mday))
    ensures var da, db := DayNo(a.year, a.mon, a.mday), DayNo(b.year, b.mon, b.mday);
            && IsoYear(a.year, DayOfYear(a), Weekday(da)) == IsoYear(b.year, DayOfYear(b), Weekday(db))
            && IsoWeekNumber(a.year, DayOfYear(a), Weekday(da)) == IsoWeekNumber(b.year, DayOfYear(b), Weekday(db))
  {
    var da, db := DayNo(a.year, a.mon, a.mday), DayNo(b.year, b.mon, b.mday);
    WeekOfDate(a);
    WeekOfDate(b);
    var y, z := IsoYear(a.year, DayOfYear(a), Weekday(da)), IsoYear(b.year, DayOfYear(b), Weekday(db));
    if y < z {
      DaysToYearMonotone(y, z);
      DaysToYearNext(y);
    } else if z < y {
      DaysToYearMonotone(z, y);
      DaysToYearNext(z);
    }
  }

  /** The loop on a real date: the week is named after the Thursday within three days of the date, by
      the year it lies in and its place among that year's Thursdays. */
  method WeekName(c: Civil) returns (year: int, w: int, ghost thursday: int)
    requires InRange(c)
    ensures Weekday(thursday) == 4 && -3 <= thursday - DayNo(c.year, c.mon, c.mday) <= 3
    ensures DaysToYear(year) <= thursday < DaysToYear(year + 1)
    ensures w == 1 + (thursday - DaysToYear(year)) / 7 && 1 <= w <= 53
  {
    hide IsoYear, IsoWeekNumber, ThursdayDay, DaysToYear, DaysBeforeMonth, YearSize, Leap, Instant;
    ghost var d := DayNo(c.year, c.mon, c.mday);
    thursday := ThursdayDay(d);
    ThursdayIs(d);
    ThursdayDistance(d);
    DayOfYearInYear(c);
    WeekOfDate(c);
    WeekInRange(c.year, DayOfYear(c), Weekday(d));
    ghost var turns;
    year, w, turns := Compute(c.year - 1900, DayOfYear(c), Weekday(DayNo(c.year, c.mon, c.mday)));
  }
}
