/** The day distance between two times, computed from days of the year. */
module DiffDays {
  import opened Arithmetic
  import opened Calendar

  /** The last whole-day point before t2, counted from t1 <= t2, with 32-bit arithmetic. */
  function WholeDays(t1: int, t2: int): nat {
    U32((t2 - t1) / SECONDS_OF_DAY)
  }

  function WindowStart(t1: int, t2: int): int {
    t1 + U32(WholeDays(t1, t2) * SECONDS_OF_DAY)
  }

  function OrderedDiffDays(t1: int, t2: int, zone: int): nat {
    U32(WholeDays(t1, t2) + LocalTime(t2, zone).yday - LocalTime(WindowStart(t1, t2), zone).yday)
  }

  function Earlier(t1: int, t2: int): int {
    if t1 > t2 then t2 else t1
  }

  /** The code swaps its arguments if they are out of order. */
  function GetDiffDays(t1: int, t2: int, zone: int): nat {
    OrderedDiffDays(Earlier(t1, t2), Max(t1, t2), zone)
  }

  /** The earlier end of the final partial-day window. */
  function Window(t1: int, t2: int): int {
    WindowStart(Earlier(t1, t2), Max(t1, t2))
  }

  /** How many local midnights separate the two times. */
  function DayDistance(t1: int, t2: int, zone: int): nat {
    var d := LocalDay(t2, zone) - LocalDay(t1, zone);
    if d < 0 then -d else d
  }

  /** Does the final partial-day window cross a local New Year? */
  predicate CrossesNewYear(t1: int, t2: int, zone: int) {
    LocalDate(Window(t1, t2), zone).year != LocalDate(Max(t1, t2), zone).year
  }

  /** From this gap on the 32-bit product of whole days and seconds wraps around. */
  const WRAP_GAP := 4295030400

  lemma SplitWholeDays(d: int)
    requires 0 <= d < 4295030400
    ensures 0 <= d / 86400 < 49711
    ensures 0 <= d - d / 86400 * 86400 < 86400
  {
  }

  lemma WindowFacts(t1: int, t2: int)
    requires 0 <= t2 - t1 < WRAP_GAP
    ensures WholeDays(t1, t2) == (t2 - t1) / SECONDS_OF_DAY < 49711
    ensures WindowStart(t1, t2) == t1 + WholeDays(t1, t2) * SECONDS_OF_DAY
    ensures 0 <= t2 - WindowStart(t1, t2) < SECONDS_OF_DAY
  {
    SplitWholeDays(t2 - t1);
  }

  /** At that gap the window starts 2^32 seconds too early. */
  lemma WrapGapTight(t1: int)
    ensures WindowStart(t1, t1 + WRAP_GAP) == t1 + WRAP_GAP - TWO32
  {
    ModAddMultiple(WRAP_GAP - TWO32, 1, TWO32);
  }

  lemma ShiftByDays(x: int, n: int)
    ensures (x + n * 86400) / 86400 == x / 86400 + n
  {
  }

  lemma {:induction false} WindowDay(t1: int, t2: int, zone: int)
    requires 0 <= t2 - t1 < WRAP_GAP
    ensures LocalDay(WindowStart(t1, t2), zone) == LocalDay(t1, zone) + WholeDays(t1, t2)
  {
    WindowFacts(t1, t2);
    ShiftByDays(t1 + zone, WholeDays(t1, t2));
  }

  /** Adjacent days in different years are the last of one and the first of the next. */
  lemma {:induction false} NewYearYearDays(day: int)
    requires YearOf(day) != YearOf(day + 1)
    ensures YearDay(day + 1) == 0 && YearDay(day) == YearLength(YearOf(day)) - 1
  {
    var y := YearOf(day);
    YearStartStep(y);
    YearStartStep(y + 1);
    if day + 1 < YearStart(y + 1) {
      YearOfUnique(day + 1, y);
    } else {
      YearOfUnique(day + 1, y + 1);
    }
  }

  /** What the window adds: the day distance, less a whole year if a New Year falls inside. */
  lemma {:induction false} WindowYearDays(day: int, step: int)
    requires 0 <= step <= 1
    ensures YearDay(day + step) - YearDay(day)
         == step - (if YearOf(day + step) == YearOf(day) then 0 else YearLength(YearOf(day)))
  {
    if YearOf(day + step) != YearOf(day) {
      NewYearYearDays(day);
    }
  }

  lemma CloseTimesStep(w: int, t2: int, zone: int)
    requires 0 <= t2 - w < SECONDS_OF_DAY
    ensures 0 <= LocalDay(t2, zone) - LocalDay(w, zone) <= 1
  {
  }

  /** A 32-bit result that may have gone below zero. */
  lemma U32Signed(d: int)
    requires -TWO32 < d < TWO32
    ensures U32(d) == if d < 0 then TWO32 + d else d
  {
    if d < 0 {
      SmallMod(TWO32 + d, TWO32);
      ModAddMultiple(d, 1, TWO32);
    } else {
      SmallMod(d, TWO32);
    }
  }

  lemma {:induction false} OrderedDiffDaysExact(t1: int, t2: int, zone: int)
    requires 0 <= t2 - t1 < WRAP_GAP
    ensures 0 <= LocalDay(t2, zone) - LocalDay(t1, zone) < 49712
    ensures Reports(OrderedDiffDays(t1, t2, zone), LocalDay(t2, zone) - LocalDay(t1, zone), WindowStart(t1, t2), t2,
                    zone)
  {
    var w := WindowStart(t1, t2);
    WindowFacts(t1, t2);
    WindowDay(t1, t2, zone);
    CloseTimesStep(w, t2, zone);
    WindowYearDays(LocalDay(w, zone), LocalDay(t2, zone) - LocalDay(w, zone));
  }

  /** The length of the year in which w falls, if t2 falls in another; otherwise nothing. */
  function LostDays(w: int, t2: int, zone: int): (n: nat)
    ensures n <= 366
    ensures n == 0 <==> LocalDate(w, zone).year == LocalDate(t2, zone).year
  {
    if LocalDate(w, zone).year == LocalDate(t2, zone).year then 0
    else YearLength(LocalDate(w, zone).year)
  }

  /** The result is the distance less the days lost in a window from w to t2, mod 2^32. */
  predicate Reports(result: nat, distance: int, w: int, t2: int, zone: int) {
    result == U32(distance - LostDays(w, t2, zone))
  }

  lemma DistanceInOrder(t1: int, t2: int, zone: int)
    ensures DayDistance(t1, t2, zone) == LocalDay(Max(t1, t2), zone) - LocalDay(Earlier(t1, t2), zone)
  {
  }

  /** For times less than 49711 days apart, in either order. */
  lemma {:induction false} DiffDaysExact(t1: int, t2: int, zone: int)
    requires -WRAP_GAP < t2 - t1 < WRAP_GAP
    ensures Reports(GetDiffDays(t1, t2, zone), DayDistance(t1, t2, zone), Window(t1, t2), Max(t1, t2), zone)
    ensures DayDistance(t1, t2, zone) < 49712
  {
    OrderedDiffDaysExact(Earlier(t1, t2), Max(t1, t2), zone);
    DistanceInOrder(t1, t2, zone);
  }

  /** The result is the calendar distance exactly when the final window stays within a local year. */
  lemma {:induction false} DiffDaysCorrectIff(t1: int, t2: int, zone: int)
    requires -WRAP_GAP < t2 - t1 < WRAP_GAP
    ensures GetDiffDays(t1, t2, zone) == DayDistance(t1, t2, zone) <==> !CrossesNewYear(t1, t2, zone)
  {
    DiffDaysExact(t1, t2, zone);
    U32Signed(DayDistance(t1, t2, zone) - LostDays(Window(t1, t2), Max(t1, t2), zone));
  }

  lemma DiffDaysSymmetric(t1: int, t2: int, zone: int)
    ensures GetDiffDays(t1, t2, zone) == GetDiffDays(t2, t1, zone)
  {
  }

  lemma AroundMidnight(day: int)
    ensures (day * 86400 - 3600) / 86400 == day - 1
    ensures (day * 86400 + 3600) / 86400 == day
  {
  }

  lemma {:induction false} CrossingPair(t1: int, t2: int, zone: int)
    requires t2 == t1 + 7200 && LocalDay(t2, zone) == LocalDay(t1, zone) + 1
    requires YearOf(LocalDay(t1, zone)) != YearOf(LocalDay(t2, zone))
    ensures DayDistance(t1, t2, zone) == 1
    ensures GetDiffDays(t1, t2, zone) == TWO32 + 1 - YearLength(YearOf(LocalDay(t1, zone)))
  {
    WindowFacts(t1, t2);
    DiffDaysExact(t1, t2, zone);
    U32Signed(1 - YearLength(YearOf(LocalDay(t1, zone))));
  }

  lemma {:induction false} YearsAroundNewYear(y: int)
    ensures YearOf(YearStart(y + 1) - 1) == y && YearOf(YearStart(y + 1)) == y + 1
  {
    YearStartStep(y);
    YearStartStep(y + 1);
    YearOfUnique(YearStart(y + 1) - 1, y);
    YearOfUnique(YearStart(y + 1), y + 1);
  }

  /** From 23:00 on New Year's Eve to 01:00: one day apart, reported as 1 minus a whole year, mod 2^32. */
  lemma {:induction false} NewYearWitness(y: int, zone: int, t: int)
    requires t == YearStart(y + 1) * SECONDS_OF_DAY - zone
    ensures DayDistance(t - 3600, t + 3600, zone) == 1
    ensures GetDiffDays(t - 3600, t + 3600, zone) == TWO32 + 1 - YearLength(y)
  {
    AroundMidnight(YearStart(y + 1));
    YearsAroundNewYear(y);
    CrossingPair(t - 3600, t + 3600, zone);
  }
}
