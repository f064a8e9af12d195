/**
 Local time under a fixed UTC offset: the proleptic Gregorian calendar with the
 "Seconds Since the Epoch" day count of section 4.16 of POSIX.1-2017 Base Definitions.
 */
module Calendar {
  import opened Arithmetic

  const SECONDS_OF_DAY := 86400

  /** The fields of `struct tm` that the time code reads; `year` counts from 1900, `mon` from 0. */
  datatype Tm = Tm(year: int, mon: int, mday: int, hour: int, min: int, sec: int, yday: int)

  /** A calendar date with the full year. */
  datatype Date = Date(year: int, mon: nat, mday: int)

  // ---- Years and months ----

  predicate IsLeap(y: int) {
    y % 4 == 0 && (y % 100 != 0 || y % 400 == 0)
  }

  function YearLength(y: int): (n: nat)
    ensures 365 <= n <= 366
  {
    if IsLeap(y) then 366 else 365
  }

  /** Days from 1 January 1970 to 1 January of year y. */
  function YearStart(y: int): int
    decreases if y < 1970 then 1970 - y else y - 1970
  {
    if y == 1970 then 0
    else if y > 1970 then YearStart(y - 1) + YearLength(y - 1)
    else YearStart(y + 1) - YearLength(y)
  }

  lemma YearStartStep(y: int)
    ensures YearStart(y + 1) == YearStart(y) + YearLength(y)
  {
  }

  /** The closed form that POSIX gives, with tm_year == y - 1900. */
  function PosixYearStart(y: int): int {
    365 * (y - 1970) + (y - 1969) / 4 - (y - 1901) / 100 + (y - 1601) / 400
  }

  lemma QuotientStep(x: int, m: int)
    requires m == 4 || m == 100 || m == 400
    ensures (x + 1) / m == x / m + (if (x + 1) % m == 0 then 1 else 0)
  {
  }

  lemma {:induction false} PosixStep(y: int)
    ensures PosixYearStart(y + 1) == PosixYearStart(y) + YearLength(y)
  {
    QuotientStep(y - 1969, 4);
    QuotientStep(y - 1901, 100);
    QuotientStep(y - 1601, 400);
    LeapRemainders(y);
  }

  lemma LeapRemainders(y: int)
    ensures (y - 1968) % 4 == y % 4 && (y - 1900) % 100 == y % 100 && (y - 1600) % 400 == y % 400
    ensures y % 400 == 0 ==> y % 100 == 0
    ensures y % 100 == 0 ==> y % 4 == 0
  {
    ModAddMultiple(y, -492, 4);
    ModAddMultiple(y, -19, 100);
    ModAddMultiple(y, -4, 400);
    ModOfMod(y, 100, 4, 400);
    ModOfMod(y, 4, 25, 100);
  }

  /** Counting year by year agrees with the POSIX expression for every year. */
  lemma {:induction false} YearStartIsPosix(y: int)
    ensures YearStart(y) == PosixYearStart(y)
    decreases if y < 1970 then 1970 - y else y - 1970
  {
    if y > 1970 {
      PosixStep(y - 1);
      YearStartIsPosix(y - 1);
    } else if y < 1970 {
      PosixStep(y);
      YearStartIsPosix(y + 1);
    }
  }

  function MonthLength(y: int, m: nat): (n: nat)
    requires m < 12
    ensures 28 <= n <= 31
  {
    if m == 1 then (if IsLeap(y) then 29 else 28)
    else if m == 3 || m == 5 || m == 8 || m == 10 then 30
    else 31
  }

  /** Days from 1 January to the first of month m. */
  function MonthStart(y: int, m: nat): nat
    requires m <= 12
  {
    if m == 0 then 0 else MonthStart(y, m - 1) + MonthLength(y, m - 1)
  }

  lemma MonthsFillYear(y: int)
    ensures MonthStart(y, 12) == YearLength(y)
  {
    assert MonthStart(y, 1) == 31;
    assert MonthStart(y, 2) == 31 + MonthLength(y, 1);
    assert MonthStart(y, 4) == MonthStart(y, 2) + 61;
    assert MonthStart(y, 6) == MonthStart(y, 4) + 61;
    assert MonthStart(y, 8) == MonthStart(y, 6) + 62;
    assert MonthStart(y, 10) == MonthStart(y, 8) + 61;
    assert MonthStart(y, 12) == MonthStart(y, 10) + 61;
  }

  // ---- From a day count to a date ----

  /** The year whose days include `day`, searched from a guess. */
  function YearFrom(day: int, guess: int): (y: int)
    ensures YearStart(y) <= day < YearStart(y + 1)
    decreases day < YearStart(guess), if day < YearStart(guess) then YearStart(guess) - day else day - YearStart(guess)
  {
    YearStartStep(guess);
    YearStartStep(guess - 1);
    if day < YearStart(guess) then YearFrom(day, guess - 1)
    else if day >= YearStart(guess + 1) then YearFrom(day, guess + 1)
    else guess
  }

  /** The month whose days include day `yday` of year y, searched upward from `guess`. */
  function MonthFrom(y: int, yday: nat, guess: nat): (m: nat)
    requires guess < 12 && MonthStart(y, guess) <= yday < YearLength(y)
    ensures m < 12 && MonthStart(y, m) <= yday < MonthStart(y, m + 1)
    decreases 12 - guess
  {
    MonthsFillYear(y);
    if yday < MonthStart(y, guess + 1) then guess else MonthFrom(y, yday, guess + 1)
  }

  function YearOf(day: int): (y: int)
    ensures YearStart(y) <= day < YearStart(y + 1)
  {
    YearFrom(day, 1970)
  }

  /** Day of the year, from 0. */
  function YearDay(day: int): (n: nat)
    ensures n < YearLength(YearOf(day))
  {
    YearStartStep(YearOf(day));
    day - YearStart(YearOf(day))
  }

  function DateOf(day: int): (d: Date)
    ensures d.mon < 12 && 1 <= d.mday <= MonthLength(d.year, d.mon)
    ensures DayNumber(d.year, d.mon, d.mday) == day
  {
    var y := YearOf(day);
    var m := MonthFrom(y, YearDay(day), 0);
    Date(y, m, YearDay(day) - MonthStart(y, m) + 1)
  }

  /** Days from 1 January 1970 to the given date. */
  function DayNumber(y: int, m: nat, mday: int): int
    requires m < 12
  {
    YearStart(y) + MonthStart(y, m) + mday - 1
  }

  // ---- Uniqueness ----

  lemma {:induction false} YearStartMonotone(y: int, z: int)
    requires y <= z
    ensures YearStart(y) <= YearStart(z)
    decreases z - y
  {
    if y < z {
      YearStartStep(z - 1);
      YearStartMonotone(y, z - 1);
    }
  }

  lemma {:induction false} YearOfUnique(day: int, y: int)
    requires YearStart(y) <= day < YearStart(y + 1)
    ensures YearOf(day) == y
  {
    var z := YearOf(day);
    if z < y {
      YearStartMonotone(z + 1, y);
    } else if y < z {
      YearStartMonotone(y + 1, z);
    }
  }

  lemma {:induction false} MonthStartMonotone(y: int, m: nat, n: nat)
    requires m <= n <= 12
    ensures MonthStart(y, m) <= MonthStart(y, n)
    decreases n - m
  {
    if m < n {
      MonthStartMonotone(y, m, n - 1);
    }
  }

  lemma {:induction false} MonthUnique(y: int, yday: nat, m: nat, n: nat)
    requires m < 12 && n < 12
    requires MonthStart(y, m) <= yday < MonthStart(y, m + 1)
    requires MonthStart(y, n) <= yday < MonthStart(y, n + 1)
    ensures m == n
  {
    if m < n {
      MonthStartMonotone(y, m + 1, n);
    } else if n < m {
      MonthStartMonotone(y, n + 1, m);
    }
  }

  /** The date of a day is the only valid date with that day number. */
  lemma {:induction false} DateOfUnique(y: int, m: nat, mday: int)
    requires m < 12 && 1 <= mday <= MonthLength(y, m)
    ensures DateOf(DayNumber(y, m, mday)) == Date(y, m, mday)
    ensures YearDay(DayNumber(y, m, mday)) == MonthStart(y, m) + mday - 1
  {
    var day := DayNumber(y, m, mday);
    MonthsFillYear(y);
    MonthStartMonotone(y, m + 1, 12);
    YearStartStep(y);
    YearOfUnique(day, y);
    MonthUnique(y, YearDay(day), m, DateOf(day).mon);
  }

  /** The date after a valid date. */
  function NextDate(y: int, m: nat, mday: int): (d: Date)
    requires m < 12 && 1 <= mday <= MonthLength(y, m)
    ensures d.mon < 12 && 1 <= d.mday <= MonthLength(d.year, d.mon) && d.mday != mday
  {
    if mday < MonthLength(y, m) then Date(y, m, mday + 1)
    else if m < 11 then Date(y, m + 1, 1)
    else Date(y + 1, 0, 1)
  }

  lemma {:induction false} NextDateIsNextDay(y: int, m: nat, mday: int)
    requires m < 12 && 1 <= mday <= MonthLength(y, m)
    ensures var d := NextDate(y, m, mday); DayNumber(d.year, d.mon, d.mday) == DayNumber(y, m, mday) + 1
  {
    if mday == MonthLength(y, m) && m == 11 {
      MonthsFillYear(y);
      YearStartStep(y);
    }
  }

  lemma {:induction false} NextDayDiffers(y: int, m: nat, mday: int)
    requires m < 12 && 1 <= mday <= MonthLength(y, m)
    ensures DateOf(DayNumber(y, m, mday) + 1) == NextDate(y, m, mday)
  {
    var d := NextDate(y, m, mday);
    NextDateIsNextDay(y, m, mday);
    DateOfUnique(d.year, d.mon, d.mday);
  }

  /** Two consecutive days never carry the same day of the month. */
  lemma {:induction false} ConsecutiveDaysDiffer(day: int)
    ensures DateOf(day).mday != DateOf(day + 1).mday
  {
    var d := DateOf(day);
    NextDayDiffers(d.year, d.mon, d.mday);
  }

  // ---- localtime_r and mktime ----

  /** The local day that second t falls on. */
  function LocalDay(t: int, zone: int): int {
    (t + zone) / SECONDS_OF_DAY
  }

  /** The second at which the local day of t began. */
  function Midnight(t: int, zone: int): (r: int)
    ensures 0 <= t - r < 86400 && (r + zone) % 86400 == 0
  {
    LocalDay(t, zone) * SECONDS_OF_DAY - zone
  }

  function LocalDate(t: int, zone: int): Date {
    DateOf(LocalDay(t, zone))
  }

  function LocalTime(t: int, zone: int): (tm: Tm)
    ensures 0 <= tm.mon < 12 && 0 <= tm.hour < 24 && 0 <= tm.min < 60 && 0 <= tm.sec < 60
  {
    var d := LocalDate(t, zone);
    var clock := t - Midnight(t, zone);
    Tm(d.year - 1900, d.mon, d.mday, clock / 3600, clock / 60 % 60, clock % 60, YearDay(LocalDay(t, zone)))
  }

  function MakeTime(tm: Tm, zone: int): int
    requires 0 <= tm.mon < 12
  {
    DayNumber(tm.year + 1900, tm.mon, tm.mday) * SECONDS_OF_DAY
    + tm.hour * 3600 + tm.min * 60 + tm.sec - zone
  }

  lemma ClockSplit(clock: int)
    requires 0 <= clock < SECONDS_OF_DAY
    ensures clock / 3600 * 3600 + clock / 60 % 60 * 60 + clock % 60 == clock
  {
  }

  /** `mktime` undoes `localtime_r`, for every second and every offset. */
  lemma {:induction false} MakeTimeOfLocalTime(t: int, zone: int)
    ensures MakeTime(LocalTime(t, zone), zone) == t
  {
    ClockSplit(t - Midnight(t, zone));
  }

  // ---- The fields from a table ----

  /** The months as a table: the day of the year on which month m starts, or the year ends, in a common year. */
  const MONTH_TABLE := [0, 31, 59, 90, 120, 151, 181, 212, 243, 273, 304, 334, 365]

  lemma MonthsMatchTable(y: int, m: nat)
    requires m <= 12
    ensures MonthStart(y, m) == MONTH_TABLE[m] + (if m > 1 && IsLeap(y) then 1 else 0)
  {
    assert MonthStart(y, 1) == 31;
    assert MonthStart(y, 2) == 31 + MonthLength(y, 1);
    assert MonthStart(y, 3) == MonthStart(y, 2) + 31;
    assert MonthStart(y, 4) == MonthStart(y, 3) + 30;
    assert MonthStart(y, 5) == MonthStart(y, 4) + 31;
    assert MonthStart(y, 6) == MonthStart(y, 5) + 30;
    assert MonthStart(y, 7) == MonthStart(y, 6) + 31;
    assert MonthStart(y, 8) == MonthStart(y, 7) + 31;
    assert MonthStart(y, 9) == MonthStart(y, 8) + 30;
    assert MonthStart(y, 10) == MonthStart(y, 9) + 31;
    assert MonthStart(y, 11) == MonthStart(y, 10) + 30;
    assert MonthStart(y, 12) == MonthStart(y, 11) + 31;
  }

  /** The day fields name day number `day`, with the POSIX expression for the days before the year. */
  ghost predicate NamesDay(tm: Tm, day: int) {
    var y := tm.year + 1900;
    var leap := if y % 4 == 0 && (y % 100 != 0 || y % 400 == 0) then 1 else 0;
    && 0 <= tm.mon < 12
    && 1 <= tm.mday <= MONTH_TABLE[tm.mon + 1] - MONTH_TABLE[tm.mon] + (if tm.mon == 1 then leap else 0)
    && tm.yday == MONTH_TABLE[tm.mon] + (if tm.mon > 1 then leap else 0) + tm.mday - 1
    && day == 365 * (tm.year - 70) + (tm.year - 69) / 4 - (tm.year - 1) / 100 + (tm.year + 299) / 400 + tm.yday
  }

  /** The clock fields name a second of the day. */
  ghost predicate NamesSecond(tm: Tm, clock: int) {
    && 0 <= tm.hour < 24 && 0 <= tm.min < 60 && 0 <= tm.sec < 60
    && tm.hour * 3600 + tm.min * 60 + tm.sec == clock
  }

  /** The fields are the local time of second t. */
  ghost predicate BrokenDown(tm: Tm, t: int, zone: int) {
    NamesDay(tm, (t + zone) / 86400) && NamesSecond(tm, (t + zone) % 86400)
  }

  lemma {:induction false} TableMonth(y: int, m: nat)
    requires m < 12
    ensures MonthLength(y, m) == MONTH_TABLE[m + 1] - MONTH_TABLE[m] + (if m == 1 && IsLeap(y) then 1 else 0)
    ensures MonthStart(y, m) == MONTH_TABLE[m] + (if m > 1 && IsLeap(y) then 1 else 0)
  {
    MonthsMatchTable(y, m);
    MonthsMatchTable(y, m + 1);
  }

  /** The same in terms of the day count. */
  ghost predicate CountsTo(y: int, m: nat, mday: int, yday: int, day: int)
    requires m < 12
  {
    && 1 <= mday <= MonthLength(y, m)
    && yday == MonthStart(y, m) + mday - 1
    && day == YearStart(y) + yday
  }

  lemma {:induction false} NamesDayCounts(tm: Tm, day: int)
    requires 0 <= tm.mon < 12
    ensures NamesDay(tm, day) <==> CountsTo(tm.year + 1900, tm.mon, tm.mday, tm.yday, day)
  {
    YearStartIsPosix(tm.year + 1900);
    TableMonth(tm.year + 1900, tm.mon);
  }

  lemma {:induction false} CountsToIff(y: int, m: nat, mday: int, yday: int, day: int)
    requires m < 12
    ensures CountsTo(y, m, mday, yday, day) <==> Date(y, m, mday) == DateOf(day) && yday == YearDay(day)
  {
    if CountsTo(y, m, mday, yday, day) {
      DateOfUnique(y, m, mday);
    }
  }

  lemma {:induction false} NamesDayIff(tm: Tm, day: int)
    ensures NamesDay(tm, day)
       <==> && 0 <= tm.mon < 12
            && Date(tm.year + 1900, tm.mon, tm.mday) == DateOf(day) && tm.yday == YearDay(day)
  {
    if 0 <= tm.mon < 12 {
      NamesDayCounts(tm, day);
      CountsToIff(tm.year + 1900, tm.mon, tm.mday, tm.yday, day);
    }
  }

  lemma {:induction false} NamesSecondUnique(a: Tm, b: Tm, clock: int)
    requires NamesSecond(a, clock) && NamesSecond(b, clock)
    ensures a.hour == b.hour && a.min == b.min && a.sec == b.sec
  {
  }

  lemma {:induction false} LocalTimeClock(t: int, zone: int)
    ensures NamesSecond(LocalTime(t, zone), (t + zone) % 86400)
  {
    ClockIs(t, zone);
    var clock := t - Midnight(t, zone);
    ClockFields(LocalTime(t, zone), clock);
  }

  lemma ClockFields(tm: Tm, clock: int)
    requires 0 <= clock < 86400
    requires tm.hour == clock / 3600 && tm.min == clock / 60 % 60 && tm.sec == clock % 60
    ensures NamesSecond(tm, clock)
  {
    ClockSplit(clock);
  }

  lemma {:induction false} ClockIs(t: int, zone: int)
    ensures t - Midnight(t, zone) == (t + zone) % 86400
  {
    DivMod(t + zone, 86400);
  }

  /** `localtime_r` gives the fields that the table and the POSIX expression name, and there are no others. */
  lemma {:induction false} LocalTimeIff(tm: Tm, t: int, zone: int)
    ensures tm == LocalTime(t, zone) <==> BrokenDown(tm, t, zone)
  {
    var local := LocalTime(t, zone);
    LocalTimeClock(t, zone);
    NamesDayIff(tm, LocalDay(t, zone));
    NamesDayIff(local, LocalDay(t, zone));
    if BrokenDown(tm, t, zone) {
      NamesSecondUnique(tm, local, (t + zone) % 86400);
    }
  }

  /** Clearing the clock fields gives the local midnight. */
  lemma {:induction false} MakeTimeOfDate(t: int, zone: int)
    ensures MakeTime(LocalTime(t, zone).(hour := 0, min := 0, sec := 0), zone) == Midnight(t, zone)
  {
  }

  /** Two seconds share a local date exactly when they share a local day. */
  lemma SameDateIsSameDay(t: int, u: int, zone: int)
    ensures LocalDate(t, zone) == LocalDate(u, zone) <==> LocalDay(t, zone) == LocalDay(u, zone)
  {
  }
}
