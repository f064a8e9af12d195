/** The server clock that caches the start of the current local day. */
module GameTime {
  import opened Calendar

  function Abs(x: int): nat {
    if x < 0 then -x else x
  }

  /** Has the local day changed between two clock readings? Compares days of the month, not dates. */
  predicate IsDayAlternate(now: int, last: int, zone: int) {
    if now == 0 then false
    else if last == 0 then true
    else if now == last then false
    else !(LocalTime(now, zone).mday == LocalTime(last, zone).mday && Abs(now - last) < SECONDS_OF_DAY)
  }

  /** Less than a day apart means on the same or on adjacent local days. */
  lemma CloseTimesAdjacentDays(t: int, u: int, zone: int)
    requires 0 <= u - t < SECONDS_OF_DAY
    ensures LocalDay(u, zone) == LocalDay(t, zone) || LocalDay(u, zone) == LocalDay(t, zone) + 1
  {
  }

  lemma SameDayCloseTimes(t: int, u: int, zone: int)
    requires LocalDay(t, zone) == LocalDay(u, zone)
    ensures Abs(t - u) < SECONDS_OF_DAY
  {
  }

  lemma CloseAndSameMonthDay(t: int, u: int, zone: int)
    requires 0 <= u - t < SECONDS_OF_DAY
    requires LocalDate(t, zone).mday == LocalDate(u, zone).mday
    ensures LocalDay(t, zone) == LocalDay(u, zone)
  {
    CloseTimesAdjacentDays(t, u, zone);
    ConsecutiveDaysDiffer(LocalDay(t, zone));
  }

  /** For non-zero readings the day-of-month test decides equality of whole dates. */
  lemma DayAlternateIsDateChange(now: int, last: int, zone: int)
    requires now != 0 && last != 0
    ensures IsDayAlternate(now, last, zone) <==> LocalDate(now, zone) != LocalDate(last, zone)
  {
    SameDateIsSameDay(now, last, zone);
    if LocalDay(now, zone) == LocalDay(last, zone) {
      SameDayCloseTimes(now, last, zone);
    } else if LocalDate(now, zone).mday == LocalDate(last, zone).mday && Abs(now - last) < SECONDS_OF_DAY {
      if now <= last {
        CloseAndSameMonthDay(now, last, zone);
      } else {
        CloseAndSameMonthDay(last, now, zone);
      }
    }
  }

  class CGameTime {
    const zone: int
    var currSec: int
    var currTm: Tm
    var beginOfDay: int
    ghost var updated: bool

    /** Whatever the clock did so far, the cached day start is right for the last non-zero reading. */
    ghost predicate Valid()
      reads this
    {
      && 0 <= currTm.mon < 12
      && (updated ==> currTm == LocalTime(currSec, zone))
      && (currSec != 0 ==> updated && beginOfDay == Midnight(currSec, zone))
    }

    constructor (utcOffset: int)
      ensures Valid() && zone == utcOffset && currSec == 0 && beginOfDay == 0 && !updated
    {
      zone := utcOffset;
      currSec, beginOfDay := 0, 0;
      currTm := Tm(0, 0, 0, 0, 0, 0, 0);
      updated := false;
    }

    /** `now` is the reading of the system clock, which may have moved either way. */
    method UpdateTime(now: int)
      requires Valid()
      modifies this
      ensures Valid() && updated && currSec == now
      ensures currTm == LocalTime(now, zone) && BrokenDown(currTm, now, zone)
      ensures now != 0 ==> beginOfDay == Midnight(now, zone)
      ensures now == 0 ==> beginOfDay == old(beginOfDay)
      ensures beginOfDay == Midnight(now, zone) <==> now != 0 || old(beginOfDay) == Midnight(0, zone)
    {
      var last := currSec;
      currSec := now;
      currTm := LocalTime(now, zone);
      updated := true;
      MakeTimeOfDate(now, zone);
      LocalTimeIff(currTm, now, zone);
      if now != 0 && last != 0 {
        DayAlternateIsDateChange(now, last, zone);
        SameDateIsSameDay(now, last, zone);
      }
      if last != now && IsDayAlternate(now, last, zone) {
        beginOfDay := MakeTime(Tm(currTm.year, currTm.mon, currTm.mday, 0, 0, 0, 0), zone);
      }
    }

    /** Seconds until the next local midnight. */
    method GetSecToNextDayBreak() returns (r: int)
      requires Valid()
      ensures updated ==> 1 <= r <= SECONDS_OF_DAY && r == Midnight(currSec, zone) + SECONDS_OF_DAY - currSec
      ensures currSec != 0 ==> 1 <= r <= SECONDS_OF_DAY && r == beginOfDay + SECONDS_OF_DAY - currSec
    {
      MakeTimeOfDate(currSec, zone);
      var tm := currTm.(hour := 0, min := 0, sec := 0);
      r := MakeTime(tm, zone) + SECONDS_OF_DAY - currSec;
    }
  }

  // ---- Series of readings ----

  /** The day start after a series of readings: the midnight of the last non-zero one. */
  function DayStart(begin: int, readings: seq<int>, zone: int): int {
    if readings == [] then begin
    else if readings[|readings| - 1] != 0 then Midnight(readings[|readings| - 1], zone)
    else DayStart(begin, readings[..|readings| - 1], zone)
  }

  lemma {:induction false} ZerosKeepStart(begin: int, readings: seq<int>, zone: int, k: nat)
    requires k < |readings| && readings[k] != 0
    requires forall i | k < i < |readings| :: readings[i] == 0
    ensures DayStart(begin, readings, zone) == Midnight(readings[k], zone)
    decreases |readings|
  {
    if k + 1 < |readings| {
      ZerosKeepStart(begin, readings[..|readings| - 1], zone, k);
    }
  }

  /** The cached start is that of the last reading exactly when the last non-zero one fell on the same local day. */
  lemma DayStartRightIff(begin: int, readings: seq<int>, zone: int, k: nat)
    requires k < |readings| && readings[k] != 0
    requires forall i | k < i < |readings| :: readings[i] == 0
    ensures var last := readings[|readings| - 1];
            DayStart(begin, readings, zone) == Midnight(last, zone)
            <==> LocalDay(readings[k], zone) == LocalDay(last, zone)
  {
    ZerosKeepStart(begin, readings, zone, k);
  }

  /** Zero readings alone keep the initial start, which is then right exactly when it was that of second 0. */
  lemma {:induction false} OnlyZerosKeepStart(begin: int, readings: seq<int>, zone: int)
    requires forall i | 0 <= i < |readings| :: readings[i] == 0
    ensures DayStart(begin, readings, zone) == begin
    decreases |readings|
  {
    if readings != [] {
      OnlyZerosKeepStart(begin, readings[..|readings| - 1], zone);
    }
  }

  /** A clock set back from day 1 to second 0 keeps the start of day 1. */
  lemma ZeroReadingWitness(begin: int)
    ensures DayStart(begin, [86400, 0], 0) == 86400 && Midnight(0, 0) == 0
  {
    ZerosKeepStart(begin, [86400, 0], 0, 0);
  }

  /** One reading: the day start it leaves and the wait that follows. */
  method Tick(clock: CGameTime, now: int) returns (start: int, wait: int)
    requires clock.Valid()
    modifies clock
    ensures clock.Valid() && start == clock.beginOfDay
    ensures start == if now != 0 then Midnight(now, clock.zone) else old(clock.beginOfDay)
    ensures wait == Midnight(now, clock.zone) + SECONDS_OF_DAY - now && 1 <= wait <= SECONDS_OF_DAY
  {
    clock.UpdateTime(now);
    wait := clock.GetSecToNextDayBreak();
    start := clock.beginOfDay;
  }

  /** Over any series of clock readings every wait is right, and the cached start is the one stated. */
  method RunClock(clock: CGameTime, readings: seq<int>) returns (starts: seq<int>, waits: seq<int>)
    requires clock.Valid()
    modifies clock
    ensures clock.Valid() && |starts| == |waits| == |readings|
    ensures forall i | 0 <= i < |readings| ::
              starts[i] == DayStart(old(clock.beginOfDay), readings[..i + 1], clock.zone)
    ensures forall i | 0 <= i < |readings| ::
              waits[i] == Midnight(readings[i], clock.zone) + SECONDS_OF_DAY - readings[i]
              && 1 <= waits[i] <= SECONDS_OF_DAY
  {
    starts, waits := [], [];
    for k := 0 to |readings|
      invariant clock.Valid() && |starts| == |waits| == k
      invariant clock.beginOfDay == DayStart(old(clock.beginOfDay), readings[..k], clock.zone)
      invariant forall i | 0 <= i < k ::
                  starts[i] == DayStart(old(clock.beginOfDay), readings[..i + 1], clock.zone)
      invariant forall i | 0 <= i < k ::
                  waits[i] == Midnight(readings[i], clock.zone) + SECONDS_OF_DAY - readings[i]
                  && 1 <= waits[i] <= SECONDS_OF_DAY
    {
      var start, wait := Tick(clock, readings[k]);
      assert readings[..k + 1][..k] == readings[..k];
      starts, waits := starts + [start], waits + [wait];
    }
  }
}
