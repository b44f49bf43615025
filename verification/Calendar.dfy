/** cs_timegm against a day-by-day count of the Gregorian calendar. */
module Calendar {

  /** C division and remainder, which round toward zero. */
  function Quot(a: int, b: nat): (q: int)
    requires b > 0
  {
    if a >= 0 then a / b else -((-a) / b)
  }

  function Rem(a: int, b: nat): (r: int)
    requires b > 0
  {
    a - b * Quot(a, b)
  }

  /** Broken-down time: `mon` counts from 0 and `year` from 1900; no field need be in range. */
  datatype Tm = Tm(sec: int, min: int, hour: int, mday: int, mon: int, year: int)

  const MONTH_DAY: seq<int> := [0, 31, 59, 90, 120, 151, 181, 212, 243, 273, 304, 334]

  function Month(tm: Tm): (m: int)
    ensures 0 <= m < 12
  {
    var m := Rem(tm.mon, 12);
    if m < 0 then m + 12 else m
  }

  function Year(tm: Tm): (y: int) {
    var y := tm.year + Quot(tm.mon, 12);
    if Rem(tm.mon, 12) < 0 then y - 1 else y
  }

  /** The closed form for leap days: `y` counts Februaries since 1900. */
  function LeapTerms(y: int): (n: int) {
    Quot(y - 69, 4) - Quot(y - 1, 100) + Quot(y + 299, 400)
  }

  /** Days since the epoch of a day in a month from 0 to 11 of a year counted from 1900. */
  function DaysTo(year: int, month: int, mday: int): (d: int)
    requires 0 <= month < 12
  {
    MONTH_DAY[month] + mday - 1 + 365 * (year - 70) + LeapTerms(if month > 1 then year + 1 else year)
  }

  function Days(tm: Tm): (d: int) { DaysTo(Year(tm), Month(tm), tm.mday) }

  function Seconds(tm: Tm): (s: int) { tm.sec + 60 * (tm.min + 60 * (tm.hour + 24 * Days(tm))) }

  predicate IsInt(x: int) { -0x8000_0000 <= x < 0x8000_0000 }

  /** No step of the sum leaves the 32-bit range in which it is computed. */
  predicate InRange(tm: Tm) {
    var hours := tm.hour + 24 * Days(tm);
    var minutes := tm.min + 60 * hours;
    IsInt(24 * Days(tm)) && IsInt(hours) && IsInt(60 * hours) && IsInt(minutes)
        && IsInt(60 * minutes) && IsInt(Seconds(tm))
  }

  datatype Outcome = Time(seconds: int) | Overflow

  function Timegm(tm: Tm): (r: Outcome) {
    if !InRange(tm) then Overflow else Time(if Seconds(tm) < 0 then -1 else Seconds(tm))
  }

  // ---------------------------------------------------------------- the calendar

  /** A day, with the full year and months from 1. */
  datatype Date = Date(year: int, month: int, day: int)

  predicate Leap(y: int) { y % 4 == 0 && (y % 100 != 0 || y % 400 == 0) }

  function MonthDays(y: int, m: int): (n: nat)
    requires 1 <= m <= 12
  {
    if m == 2 then (if Leap(y) then 29 else 28) else if m == 4 || m == 6 || m == 9 || m == 11 then 30 else 31
  }

  predicate Valid(d: Date) { 1 <= d.month <= 12 && 1 <= d.day <= MonthDays(d.year, d.month) }

  /** The day after. */
  function Next(d: Date): (n: Date)
    requires Valid(d)
    ensures Valid(n)
  {
    if d.day < MonthDays(d.year, d.month) then d.(day := d.day + 1)
    else if d.month < 12 then Date(d.year, d.month + 1, 1)
    else Date(d.year + 1, 1, 1)
  }

  /** The day `n` days after the first of January 1970. */
  function DayOf(n: nat): (d: Date)
    ensures Valid(d)
  {
    if n == 0 then Date(1970, 1, 1) else Next(DayOf(n - 1))
  }

  function Midnight(d: Date): (tm: Tm) { Tm(0, 0, 0, d.day, d.month - 1, d.year - 1900) }

  // ---------------------------------------------------------------- agreement

  /** From 1969 on, the terms step by one exactly behind each leap year's February. */
  lemma LeapStep(y: int)
    requires y >= 69
    ensures LeapTerms(y + 1) - LeapTerms(y) == if Leap(1900 + y) then 1 else 0
  {
    StepBy4(y - 69);
    StepBy100(y - 1);
    StepBy400(y + 299);
  }

  lemma StepBy4(a: nat)
    ensures (a + 1) / 4 - a / 4 == if (a + 1) % 4 == 0 then 1 else 0
  {
  }

  lemma StepBy100(a: nat)
    ensures (a + 1) / 100 - a / 100 == if (a + 1) % 100 == 0 then 1 else 0
  {
  }

  lemma StepBy400(a: nat)
    ensures (a + 1) / 400 - a / 400 == if (a + 1) % 400 == 0 then 1 else 0
  {
  }

  lemma MidnightDays(d: Date)
    requires 1 <= d.month <= 12
    ensures Days(Midnight(d)) == DaysTo(d.year - 1900, d.month - 1, d.day)
  {
    hide DaysTo;
  }

  /** Months cover the table's distances, with the leap day behind February. */
  lemma MonthStep(y: int, m: int)
    requires 0 <= m < 11 && y >= 69
    ensures DaysTo(y, m + 1, 1) == DaysTo(y, m, MonthDays(1900 + y, m + 1)) + 1
  {
    LeapStep(y);
    hide LeapTerms, Leap;
  }

  lemma YearStep(y: int)
    ensures DaysTo(y + 1, 0, 1) == DaysTo(y, 11, 31) + 1
  {
    hide LeapTerms;
  }

  /** Each following day counts one more. */
  lemma NextDay(d: Date)
    requires Valid(d) && d.year >= 1970
    ensures Days(Midnight(Next(d))) == Days(Midnight(d)) + 1
  {
    hide Days, Midnight, Leap, LeapTerms;
    MidnightDays(d);
    MidnightDays(Next(d));
    if d.day == MonthDays(d.year, d.month) {
      if d.month < 12 {
        MonthStep(d.year - 1900, d.month - 1);
      } else {
        YearStep(d.year - 1900);
      }
    }
  }

  lemma {:induction false} YearOf(n: nat)
    ensures DayOf(n).year >= 1970
  {
    if n > 0 { YearOf(n - 1); }
  }

  /** The closed form counts days one by one from the first of January 1970. */
  lemma {:induction false} CountsDays(n: nat)
    ensures Days(Midnight(DayOf(n))) == n
  {
    hide Days, Midnight, Next;
    if n > 0 {
      CountsDays(n - 1);
      YearOf(n - 1);
      NextDay(DayOf(n - 1));
    } else {
      MidnightDays(Date(1970, 1, 1));
    }
  }

  // ---------------------------------------------------------------- every date is counted

  /** The day before. */
  function Previous(d: Date): (p: Date)
    requires Valid(d)
    ensures Valid(p)
  {
    if d.day > 1 then d.(day := d.day - 1)
    else if d.month > 1 then Date(d.year, d.month - 1, MonthDays(d.year, d.month - 1))
    else Date(d.year - 1, 12, 31)
  }

  /** Every date from 1970 on is met by the count, so the closed form numbers the dates one to one. */
  lemma {:induction false} EveryDate(d: Date)
    requires Valid(d) && d.year >= 1970
    ensures Days(Midnight(d)) >= 0 && DayOf(Days(Midnight(d))) == d
    decreases d.year, d.month, d.day
  {
    hide Days, Midnight, Leap;
    if d == Date(1970, 1, 1) {
      MidnightDays(d);
    } else {
      var p := Previous(d);
      assert Next(p) == d;
      EveryDate(p);
      NextDay(p);
    }
  }

  // ---------------------------------------------------------------- whole times

  /** Any number of months, also below zero, is carried into the years. */
  lemma MonthsCarry(tm: Tm, years: int)
    ensures Seconds(tm.(mon := tm.mon - 12 * years, year := tm.year + years)) == Seconds(tm)
    ensures 12 * Year(tm) + Month(tm) == 12 * tm.year + tm.mon
  {
    hide DaysTo;
    var tm' := tm.(mon := tm.mon - 12 * years, year := tm.year + years);
    assert 12 * Year(tm') + Month(tm') == 12 * Year(tm) + Month(tm);
  }

  /** A day of the calendar and a time of that day. */
  function Stamp(n: nat, hour: int, min: int, sec: int): (tm: Tm) {
    Midnight(DayOf(n)).(hour := hour, min := min, sec := sec)
  }

  /** For every day from 1970 on and every time of day, the result is the number of seconds, as long
      as that number is below 2^31; from there on the 32-bit sum overflows. */
  lemma TimegmExactly(n: nat, hour: nat, min: nat, sec: nat)
    requires hour < 24 && min < 60 && sec < 60
    ensures var s := sec + 60 * min + 3600 * hour + 86400 * n;
            Timegm(Stamp(n, hour, min, sec)) == if s < 0x8000_0000 then Time(s) else Overflow
  {
    hide Days, DayOf;
    var tm := Stamp(n, hour, min, sec);
    CountsDays(n);
    SameDays(Midnight(DayOf(n)), tm);
  }

  lemma SameDays(a: Tm, b: Tm)
    requires a.mday == b.mday && a.mon == b.mon && a.year == b.year
    ensures Days(a) == Days(b)
  {
  }

  /** For any year, month and day, with a time of day in range: the sum is exact up to 2^31, and down to
      where its whole minutes leave the range; below zero the result is -1. */
  lemma AnyDay(tm: Tm)
    requires 0 <= tm.hour < 24 && 0 <= tm.min < 60 && 0 <= tm.sec < 60
    ensures var s := tm.sec + 60 * tm.min + 3600 * tm.hour + 86400 * Days(tm);
            Timegm(tm) == if s < 0x8000_0000 && s - tm.sec >= -0x8000_0000 then Time(if s < 0 then -1 else s)
                          else Overflow
  {
    hide Days;
  }

  /** Any day before 1970, back to 1902 where the sum still fits, gives -1. */
  lemma BeforeEpoch(d: Date, hour: nat, min: nat, sec: nat)
    requires Valid(d) && 1902 <= d.year < 1970 && hour < 24 && min < 60 && sec < 60
    ensures Timegm(Midnight(d).(hour := hour, min := min, sec := sec)) == Time(-1)
  {
    hide Days;
    var tm := Midnight(d).(hour := hour, min := min, sec := sec);
    SameDays(Midnight(d), tm);
    MidnightDays(d);
    EarlyDays(d.year - 1900, d.month - 1, d.day);
  }

  lemma EarlyDays(y: int, m: int, day: int)
    requires 2 <= y < 70 && 0 <= m < 12 && 1 <= day <= MonthDays(1900 + y, m + 1)
    ensures -24855 <= DaysTo(y, m, day) < 0
  {
    EarlyLeaps(if m > 1 then y + 1 else y);
  }

  lemma EarlyLeaps(y: int)
    requires 2 <= y <= 70
    ensures -17 <= LeapTerms(y) <= 0
  {
  }
}
