/** The free helpers of entry.go: day boundaries, absolute shifts, zone
    conversion, the leap-year test, the tolerance check, weekday enumeration and
    field decomposition.  The clock and the zone database are parameters:
    `now` is the current time and `lookup` answers a zone name with a zone, or
    with nothing when the name is unknown. */
module Entry {
  import opened Calendar
  import opened Clock

  /** The error a failed zone lookup reports. */
  datatype ZoneError = UnknownTimeZone(name: string)

  /** Midnight at the start of `v`'s date, in `v`'s zone. */
  function BeginOfDay(v: Time): (r: Time)
    ensures r.zone == v.zone
    ensures DayNumber(r) == DayNumber(v) && DateOf(r) == DateOf(v)
    ensures Hour(r) == 0 && Minute(r) == 0 && Second(r) == 0 && Nanosecond(r) == 0
    ensures r.unixNanos <= v.unixNanos < r.unixNanos + NanosPerDay
  {
    DayNumberOfDate(v);
    MakeTimeFields(Year(v), Month(v), Day(v), 0, 0, 0, 0, v.zone);
    LocalSplit(v);
    MakeTime(Year(v), Month(v), Day(v), 0, 0, 0, 0, v.zone)
  }

  /** 23:59:59 (with no nanoseconds) on `v`'s date, in `v`'s zone. */
  function FEndOfDay(v: Time): (r: Time)
    ensures r.zone == v.zone
    ensures DayNumber(r) == DayNumber(v) && DateOf(r) == DateOf(v)
    ensures Hour(r) == 23 && Minute(r) == 59 && Second(r) == 59 && Nanosecond(r) == 0
    ensures r.unixNanos == BeginOfDay(v).unixNanos + 86399 * NanosPerSecond
  {
    DayNumberOfDate(v);
    MakeTimeFields(Year(v), Month(v), Day(v), 23, 59, 59, 0, v.zone);
    MakeTime(Year(v), Month(v), Day(v), 23, 59, 59, 0, v.zone)
  }

  /** Midnight on the date `day` calendar days before `v`'s date. */
  function PrevBeginOfDay(v: Time, day: int): (r: Time)
    ensures r.zone == v.zone
    ensures DayNumber(r) == DayNumber(v) - day
    ensures DateOf(r) == CivilFromDays(DayNumber(v) - day)
    ensures Hour(r) == 0 && Minute(r) == 0 && Second(r) == 0 && Nanosecond(r) == 0
  {
    DaysEarlier(v, day);
    BeginOfDay(AddDate(v, 0, 0, -day))
  }

  /** 23:59:59 on the date `day` calendar days before `v`'s date. */
  function PrevEndOfDay(v: Time, day: int): (r: Time)
    ensures r.zone == v.zone
    ensures DayNumber(r) == DayNumber(v) - day
    ensures DateOf(r) == CivilFromDays(DayNumber(v) - day)
    ensures Hour(r) == 23 && Minute(r) == 59 && Second(r) == 59 && Nanosecond(r) == 0
  {
    DaysEarlier(v, day);
    FEndOfDay(AddDate(v, 0, 0, -day))
  }

  /** `AddDate(0, 0, -day)` keeps the zone and moves the day number back by `day`. */
  lemma DaysEarlier(v: Time, day: int)
    ensures AddDate(v, 0, 0, -day).zone == v.zone
    ensures DayNumber(AddDate(v, 0, 0, -day)) == DayNumber(v) - day
  {
    AddDateDays(v, -day);
    AddWholeDays(v, -day);
  }

  /** Shows `v` in the zone named `tz`; an unknown name gives `v` back with an error. */
  function SetTimezone(v: Time, tz: string, lookup: string -> Option<Zone>): (r: (Time, Option<ZoneError>))
    ensures lookup(tz).None? ==> r == (v, Some(UnknownTimeZone(tz)))
    ensures lookup(tz).Some? ==> r.1.None? && r.0.zone == lookup(tz).value
    ensures Sub(r.0, v) == 0
  {
    match lookup(tz)
    case None => (v, Some(UnknownTimeZone(tz)))
    case Some(loc) => (In(v, loc), None)
  }

  /** `SetTimezone` with the error swallowed: an unknown name leaves `v` as it is. */
  function AdjustTimezone(v: Time, tz: string, lookup: string -> Option<Zone>): (r: Time)
    ensures lookup(tz).None? ==> r == v
    ensures lookup(tz).Some? ==> r.zone == lookup(tz).value
    ensures Sub(r, v) == 0
  {
    var (t, err) := SetTimezone(v, tz, lookup);
    if err.Some? then v else t
  }

  /** Both zone setters show the same time, whether or not the lookup succeeds. */
  lemma AdjustTimezoneAgrees(v: Time, tz: string, lookup: string -> Option<Zone>)
    ensures AdjustTimezone(v, tz, lookup) == SetTimezone(v, tz, lookup).0
    ensures SetTimezone(v, tz, lookup).1.Some? <==> lookup(tz).None?
  {
  }

  /** A successful zone change keeps the instant and moves the wall clock by the
      difference of the offsets. */
  lemma SetTimezoneWallClock(v: Time, tz: string, lookup: string -> Option<Zone>)
    requires lookup(tz).Some?
    ensures LocalNanos(SetTimezone(v, tz, lookup).0) - LocalNanos(v)
            == (lookup(tz).value.offsetSeconds - v.zone.offsetSeconds) * NanosPerSecond
  {
  }

  function AddSecond(v: Time, second: int): (r: Time)
    ensures r.zone == v.zone
    ensures Sub(r, v) == second * NanosPerSecond
    ensures second == 0 ==> r == v
  {
    if second == 0 then v else Add(v, NanosPerSecond * second)
  }

  function AddMinute(v: Time, minute: int): (r: Time)
    ensures r.zone == v.zone
    ensures Sub(r, v) == minute * NanosPerMinute
    ensures minute == 0 ==> r == v
  {
    if minute == 0 then v else Add(v, NanosPerMinute * minute)
  }

  function AddHour(v: Time, hour: int): (r: Time)
    ensures r.zone == v.zone
    ensures Sub(r, v) == hour * NanosPerHour
    ensures hour == 0 ==> r == v
  {
    if hour == 0 then v else Add(v, NanosPerHour * hour)
  }

  /** Adds `day` periods of exactly 24 hours. */
  function AddDay(v: Time, day: int): (r: Time)
    ensures r.zone == v.zone
    ensures Sub(r, v) == day * NanosPerDay
    ensures day == 0 ==> r == v
  {
    if day == 0 then v else Add(v, NanosPerHour * 24 * day)
  }

  /** The units nest: a day is 24 hours, an hour 60 minutes, a minute 60 seconds. */
  lemma AddUnitsNest(v: Time, n: int)
    ensures AddMinute(v, n) == AddSecond(v, 60 * n)
    ensures AddHour(v, n) == AddMinute(v, 60 * n)
    ensures AddDay(v, n) == AddHour(v, 24 * n)
  {
  }

  /** Shifts compose additively, so shifting back undoes a shift. */
  lemma AddDayCompose(v: Time, a: int, b: int)
    ensures AddDay(AddDay(v, a), b) == AddDay(v, a + b)
    ensures AddDay(AddDay(v, a), -a) == v
    ensures AddSecond(AddSecond(v, a), b) == AddSecond(v, a + b)
  {
  }

  /** In a fixed-offset zone `AddDay` lands on the date `day` days later at the
      same wall-clock time, which is what `AddDate(0, 0, day)` computes. */
  lemma AddDayIsCalendarShift(v: Time, day: int)
    ensures AddDay(v, day) == AddDate(v, 0, 0, day)
  {
    AddDateDays(v, day);
  }

  lemma AddDayKeepsClock(v: Time, day: int)
    ensures DayNumber(AddDay(v, day)) == DayNumber(v) + day
    ensures NanoOfDay(AddDay(v, day)) == NanoOfDay(v)
  {
    AddWholeDays(v, day);
  }

  /** True when `v` is at most one minute before or after `now`, both ends included. */
  function IsWithinTolerance(v: Time, now: Time): (r: bool)
    ensures r <==> (if Sub(v, now) < 0 then -Sub(v, now) else Sub(v, now)) <= NanosPerMinute
  {
    var tolerance := NanosPerMinute;
    var diff := Sub(v, now);
    diff >= -tolerance && diff <= tolerance
  }

  lemma IsWithinToleranceSymmetric(v: Time, now: Time)
    ensures IsWithinTolerance(v, now) == IsWithinTolerance(now, v)
  {
  }

  /** The Gregorian leap rule.  The source's `%` truncates toward zero, which
      agrees with Dafny's on every test against 0 written here.  A leap year is
      one of 366 days from 1 January to the next 1 January, and one whose
      1 March comes 29 days after its 1 February. */
  function IsLeapYear(year: int): (r: bool)
    ensures r <==> DaysFromCivil(year + 1, 1, 1) - DaysFromCivil(year, 1, 1) == 366
    ensures r <==> DaysFromCivil(year, 3, 1) - DaysFromCivil(year, 2, 1) == 29
  {
    YearLengthCivil(year);
    MonthLengthIsGap(year, 2);
    year % 4 == 0 && (year % 100 != 0 || year % 400 == 0)
  }

  lemma IsLeapYearExamples()
    ensures IsLeapYear(2000) && IsLeapYear(2004) && IsLeapYear(2020) && IsLeapYear(2024)
    ensures !IsLeapYear(1900) && !IsLeapYear(2100) && !IsLeapYear(2021) && !IsLeapYear(2022) && !IsLeapYear(2023)
  {
  }

  /** Whether the year of `v`, in `v`'s zone, is a leap year. */
  function IsLeapYearN(v: Time): (r: bool)
    ensures r <==> DaysFromCivil(Year(v) + 1, 1, 1) - DaysFromCivil(Year(v), 1, 1) == 366
  {
    IsLeapYear(Year(v))
  }

  /** A time on the walk from `start` to `end` in steps of one day. */
  predicate OnDayWalk(start: Time, end: Time, t: Time)
  {
    && t.zone == start.zone
    && start.unixNanos <= t.unixNanos <= end.unixNanos
    && (t.unixNanos - start.unixNanos) % NanosPerDay == 0
  }

  /** The walk from `start` while the current time is not after `end` (instants
      compared, both ends included), keeping the days `keep` accepts, in order.
      The source steps with `AddDate(0, 0, 1)`; in a fixed-offset zone that is
      exactly 24 hours later (`Clock.AddDateDays`), which is the step taken here. */
  function DayWalk(start: Time, end: Time, keep: Time -> bool): (r: seq<Time>)
    ensures forall i | 0 <= i < |r| :: OnDayWalk(start, end, r[i]) && keep(r[i])
    ensures forall i, j | 0 <= i < j < |r| :: r[i].unixNanos < r[j].unixNanos
    decreases end.unixNanos - start.unixNanos
  {
    if start.unixNanos <= end.unixNanos then
      var next := DaysLater(start, 1);
      var rest := DayWalk(next, end, keep);
      WalkShift(start, next, end, rest);
      if keep(start) then
        WalkCons(start, end, rest, keep);
        [start] + rest
      else
        rest
    else
      []
  }

  lemma WalkShift(start: Time, next: Time, end: Time, rest: seq<Time>)
    requires next == Add(start, NanosPerDay)
    requires forall i | 0 <= i < |rest| :: OnDayWalk(next, end, rest[i])
    ensures forall i | 0 <= i < |rest| :: OnDayWalk(start, end, rest[i]) && start.unixNanos < rest[i].unixNanos
  {
    forall i | 0 <= i < |rest|
      ensures OnDayWalk(start, end, rest[i]) && start.unixNanos < rest[i].unixNanos
    {
      var x := rest[i].unixNanos - next.unixNanos;
      assert rest[i].unixNanos - start.unixNanos == x + NanosPerDay;
      DayShiftMod(x);
    }
  }

  lemma WalkCons(start: Time, end: Time, rest: seq<Time>, keep: Time -> bool)
    requires start.unixNanos <= end.unixNanos && keep(start)
    requires forall i | 0 <= i < |rest| :: OnDayWalk(start, end, rest[i]) && keep(rest[i]) && start.unixNanos < rest[i].unixNanos
    requires forall i, j | 0 <= i < j < |rest| :: rest[i].unixNanos < rest[j].unixNanos
    ensures var r := [start] + rest;
            && (forall i | 0 <= i < |r| :: OnDayWalk(start, end, r[i]) && keep(r[i]))
            && (forall i, j | 0 <= i < j < |r| :: r[i].unixNanos < r[j].unixNanos)
  {
    var r := [start] + rest;
    assert OnDayWalk(start, end, start);
    assert forall i | 0 < i < |r| :: r[i] == rest[i - 1];
  }

  /** Every accepted day `k` days into the walk is in the result. */
  lemma {:induction false} DayWalkComplete(start: Time, end: Time, keep: Time -> bool, k: nat)
    requires start.unixNanos + k * NanosPerDay <= end.unixNanos
    requires keep(DaysLater(start, k))
    ensures DaysLater(start, k) in DayWalk(start, end, keep)
    decreases k
  {
    if k == 0 {
      assert DaysLater(start, k) == start;
    } else {
      var next := DaysLater(start, 1);
      assert (k - 1) * NanosPerDay + NanosPerDay == k * NanosPerDay;
      assert DaysLater(next, k - 1) == DaysLater(start, k);
      DayWalkComplete(next, end, keep, k - 1);
    }
  }

  /** The walk keeps exactly the accepted days that lie on it. */
  lemma DayWalkExactly(start: Time, end: Time, keep: Time -> bool, t: Time)
    ensures t in DayWalk(start, end, keep) <==> OnDayWalk(start, end, t) && keep(t)
  {
    if OnDayWalk(start, end, t) && keep(t) {
      var k := (t.unixNanos - start.unixNanos) / NanosPerDay;
      assert t.unixNanos - start.unixNanos == k * NanosPerDay;
      assert t == DaysLater(start, k);
      DayWalkComplete(start, end, keep, k);
    }
  }

  /** Monday to Friday. */
  predicate IsWorkday(t: Time)
  {
    WeekdayOf(t) != Sunday && WeekdayOf(t) != Saturday
  }

  /** The test the loop body of `GetWeekdaysInRange` applies to each day, as written. */
  predicate KeepsDay(current: Time)
  {
    var d := WeekdayOf(current);
    && d != Sunday && d != Saturday
    && var y := Year(current);
       || (IsLeapYear(y) && Month(current) == 2 && Day(current) == 29)
       || (!IsLeapYear(y) && Day(current) <= Day(MakeTime(y, 12, 31, 0, 0, 0, 0, UTC)))
  }

  /** What that test amounts to: a Monday to Friday that, in a leap year, is also 29 February. */
  predicate Emitted(t: Time)
  {
    IsWorkday(t) && (IsLeapYear(Year(t)) ==> Month(t) == 2 && Day(t) == 29)
  }

  lemma KeepsDayIff(t: Time)
    ensures KeepsDay(t) <==> Emitted(t)
  {
    var y := Year(t);
    MakeTimeFields(y, 12, 31, 0, 0, 0, 0, UTC);
    DayNumberOfDate(t);
  }

  /** The weekday enumeration as written: the day-of-month comparison against
      31 December always holds, so outside leap years every Monday to Friday is
      kept, and in a leap year only a 29 February that is a Monday to Friday. */
  function GetWeekdaysInRange(start: Time, end: Time): (r: seq<Time>)
    ensures forall t :: t in r <==> OnDayWalk(start, end, t) && Emitted(t)
    ensures forall i, j | 0 <= i < j < |r| :: r[i].unixNanos < r[j].unixNanos
  {
    var r := DayWalk(start, end, KeepsDay);
    assert forall t :: t in r <==> OnDayWalk(start, end, t) && Emitted(t) by {
      forall t
        ensures t in r <==> OnDayWalk(start, end, t) && Emitted(t)
      {
        DayWalkExactly(start, end, KeepsDay, t);
        KeepsDayIff(t);
      }
    }
    r
  }

  /** In a leap year nothing but 29 February is ever kept. */
  lemma GetWeekdaysInRangeLeap(start: Time, end: Time, t: Time)
    requires t in GetWeekdaysInRange(start, end)
    requires IsLeapYear(Year(t))
    ensures Month(t) == 2 && Day(t) == 29
  {
  }

  /** Midnight UTC on day `d` of March 2024 has day number 19782 + `d`. */
  lemma March2024(d: int)
    requires 1 <= d <= 31
    ensures var t := MakeTime(2024, 3, d, 0, 0, 0, 0, UTC);
            && t.zone == UTC
            && t.unixNanos == (19782 + d) * NanosPerDay
            && DayNumber(t) == 19782 + d
            && DaysFromCivil(2024, 3, d) == 19782 + d
            && ValidDate(Date(2024, 3, d))
  {
    assert MarchYearStart(2024) == 19783 by {
      assert 2024 / 400 == 5 && 2024 % 400 == 24;
      assert YearStart(24) == 8766;
    }
    assert DaysFromCivil(2024, 3, d) == 19782 + d;
    DayDivMod(19782 + d, 0);
  }

  lemma March2024Date(d: int)
    requires 1 <= d <= 31
    ensures var t := MakeTime(2024, 3, d, 0, 0, 0, 0, UTC);
            Year(t) == 2024 && Month(t) == 3 && Day(t) == d
  {
    March2024(d);
    DateRoundTrip(Date(2024, 3, d));
    assert DateOf(MakeTime(2024, 3, d, 0, 0, 0, 0, UTC)) == Date(2024, 3, d);
  }

  /** Every day of the walk from 1 to 10 March 2024 (UTC) lies in March 2024. */
  lemma March2024Walk(t: Time)
    requires OnDayWalk(MakeTime(2024, 3, 1, 0, 0, 0, 0, UTC), MakeTime(2024, 3, 10, 0, 0, 0, 0, UTC), t)
    ensures Year(t) == 2024 && Month(t) == 3 && !Emitted(t)
  {
    var start := MakeTime(2024, 3, 1, 0, 0, 0, 0, UTC);
    March2024(1);
    March2024(10);
    var x := t.unixNanos - start.unixNanos;
    var k := x / NanosPerDay;
    assert x == k * NanosPerDay;
    assert 0 <= k <= 9;
    March2024(k + 1);
    March2024Date(k + 1);
    assert t.unixNanos == MakeTime(2024, 3, k + 1, 0, 0, 0, 0, UTC).unixNanos;
    assert IsLeapYear(2024);
  }

  /** 1 to 10 March 2024 holds six Mondays to Fridays (see `March2024Workday`),
      yet the enumeration as written returns none of them, because 2024 is a
      leap year. */
  lemma GetWeekdaysInRangeMarch2024()
    ensures GetWeekdaysInRange(MakeTime(2024, 3, 1, 0, 0, 0, 0, UTC), MakeTime(2024, 3, 10, 0, 0, 0, 0, UTC)) == []
  {
    var r := GetWeekdaysInRange(MakeTime(2024, 3, 1, 0, 0, 0, 0, UTC), MakeTime(2024, 3, 10, 0, 0, 0, 0, UTC));
    if r != [] {
      assert r[0] in r;
      March2024Walk(r[0]);
      assert false;
    }
  }

  /** The weekday enumeration as its documentation describes it: every Monday to
      Friday of the walk. */
  function WeekdaysInRange(start: Time, end: Time): (r: seq<Time>)
    ensures forall t :: t in r <==> OnDayWalk(start, end, t) && IsWorkday(t)
    ensures forall i, j | 0 <= i < j < |r| :: r[i].unixNanos < r[j].unixNanos
  {
    var r := DayWalk(start, end, IsWorkday);
    assert forall t :: t in r <==> OnDayWalk(start, end, t) && IsWorkday(t) by {
      forall t
        ensures t in r <==> OnDayWalk(start, end, t) && IsWorkday(t)
      {
        DayWalkExactly(start, end, IsWorkday, t);
      }
    }
    r
  }

  /** Outside leap years both enumerations agree. */
  lemma WeekdaysInRangeAgreesOutsideLeapYears(start: Time, end: Time, t: Time)
    requires !IsLeapYear(Year(t))
    ensures t in GetWeekdaysInRange(start, end) <==> t in WeekdaysInRange(start, end)
  {
  }

  /** The corrected enumeration keeps 1 and 4 to 8 March 2024 and drops the weekends. */
  lemma WeekdaysInRangeMarch2024(d: int)
    requires 1 <= d <= 10
    ensures MakeTime(2024, 3, d, 0, 0, 0, 0, UTC) in WeekdaysInRange(MakeTime(2024, 3, 1, 0, 0, 0, 0, UTC), MakeTime(2024, 3, 10, 0, 0, 0, 0, UTC))
            <==> d !in {2, 3, 9, 10}
  {
    March2024OnWalk(d);
    March2024Workday(d);
  }

  lemma March2024OnWalk(d: int)
    requires 1 <= d <= 10
    ensures OnDayWalk(MakeTime(2024, 3, 1, 0, 0, 0, 0, UTC), MakeTime(2024, 3, 10, 0, 0, 0, 0, UTC), MakeTime(2024, 3, d, 0, 0, 0, 0, UTC))
  {
    March2024(1);
    March2024(10);
    March2024(d);
    DayDivMod(d - 1, 0);
  }

  lemma March2024Workday(d: int)
    requires 1 <= d <= 10
    ensures IsWorkday(MakeTime(2024, 3, d, 0, 0, 0, 0, UTC)) <==> d !in {2, 3, 9, 10}
  {
    March2024(d);
    WeekdayPeriodic(d, 2826);
    if d <= 2 {
      assert (d + 4) % 7 == d + 4;
    } else if d <= 9 {
      assert (d + 4) % 7 == d - 3;
    } else {
      assert (d + 4) % 7 == 0;
    }
  }

  /** The fields of `t` in the order nanosecond, second, minute, hour, day,
      month, year; building a time from them gives `t` back. */
  function FormatTimex(t: Time): (r: seq<int>)
    ensures |r| == 7
    ensures ValidDate(Date(r[6], r[5], r[4])) && ValidClock(r[3], r[2], r[1], r[0])
    ensures MakeTime(r[6], r[5], r[4], r[3], r[2], r[1], r[0], t.zone) == t
  {
    ClockFields(t);
    MakeTimeOfFields(t);
    [Nanosecond(t), Second(t), Minute(t), Hour(t), Day(t), Month(t), Year(t)]
  }

  lemma FormatTimexExample()
    ensures FormatTimex(MakeTime(2023, 10, 25, 14, 30, 45, 123456789, UTC)) == [123456789, 45, 30, 14, 25, 10, 2023]
  {
    MakeTimeFields(2023, 10, 25, 14, 30, 45, 123456789, UTC);
  }
}
