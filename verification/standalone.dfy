/** The variant helpers of standalone.go.  Its day boundaries build their result
    in the process's local zone, like timefy.go's; its zone setter converts
    before it looks at the lookup's outcome.  The remaining helpers of that file
    (the absolute shifts, the leap-year test, the tolerance check, the weekday
    enumeration and the field decomposition) have the same bodies as entry.go's
    and are the `Entry` members. */
module Standalone {
  import opened Calendar
  import opened Clock
  import Entry
  import Timefy

  /** Midnight, in the local zone, on the date `v` shows. */
  function BeginOfDay(v: Time, localOffset: int): (r: Time)
    ensures r.zone == Local(localOffset)
    ensures DateOf(r) == DateOf(v) && DayNumber(r) == DayNumber(v)
    ensures Hour(r) == 0 && Minute(r) == 0 && Second(r) == 0 && Nanosecond(r) == 0
  {
    DayNumberOfDate(v);
    MakeTimeFields(Year(v), Month(v), Day(v), 0, 0, 0, 0, Local(localOffset));
    MakeTime(Year(v), Month(v), Day(v), 0, 0, 0, 0, Local(localOffset))
  }

  /** 23:59:59, with no nanoseconds, in the local zone, on the date `v` shows. */
  function EndOfDay(v: Time, localOffset: int): (r: Time)
    ensures r.zone == Local(localOffset)
    ensures DateOf(r) == DateOf(v) && DayNumber(r) == DayNumber(v)
    ensures Hour(r) == 23 && Minute(r) == 59 && Second(r) == 59 && Nanosecond(r) == 0
  {
    DayNumberOfDate(v);
    MakeTimeFields(Year(v), Month(v), Day(v), 23, 59, 59, 0, Local(localOffset));
    MakeTime(Year(v), Month(v), Day(v), 23, 59, 59, 0, Local(localOffset))
  }

  /** Local midnight on the date `day` calendar days before the date `v` shows. */
  function PrevBeginOfDay(v: Time, day: int, localOffset: int): (r: Time)
    ensures r.zone == Local(localOffset)
    ensures DayNumber(r) == DayNumber(v) - day
    ensures DateOf(r) == CivilFromDays(DayNumber(v) - day)
    ensures Hour(r) == 0 && Minute(r) == 0 && Second(r) == 0 && Nanosecond(r) == 0
  {
    Entry.DaysEarlier(v, day);
    BeginOfDay(AddDate(v, 0, 0, -day), localOffset)
  }

  /** Local 23:59:59 on the date `day` calendar days before the date `v` shows. */
  function PrevEndOfDay(v: Time, day: int, localOffset: int): (r: Time)
    ensures r.zone == Local(localOffset)
    ensures DayNumber(r) == DayNumber(v) - day
    ensures DateOf(r) == CivilFromDays(DayNumber(v) - day)
    ensures Hour(r) == 23 && Minute(r) == 59 && Second(r) == 59 && Nanosecond(r) == 0
  {
    Entry.DaysEarlier(v, day);
    EndOfDay(AddDate(v, 0, 0, -day), localOffset)
  }

  /** The zone change of standalone.go.  It converts `v` before it checks the
      lookup, and converting to a missing location fails, so the caller must
      name a known zone; the error it then returns is always nil. */
  function SetTimezone(v: Time, tz: string, lookup: string -> Option<Zone>): (r: (Time, Option<Entry.ZoneError>))
    requires lookup(tz).Some?
    ensures r.1.None? && r.0.zone == lookup(tz).value
    ensures Sub(r.0, v) == 0
  {
    (In(v, lookup(tz).value), None)
  }

  function AdjustTimezone(v: Time, tz: string, lookup: string -> Option<Zone>): (r: Time)
    requires lookup(tz).Some?
    ensures r.zone == lookup(tz).value && Sub(r, v) == 0
  {
    var (t, err) := SetTimezone(v, tz, lookup);
    if err.Some? then v else t
  }

  /** On a known zone the variant agrees with entry.go's zone setters. */
  lemma SetTimezoneAgrees(v: Time, tz: string, lookup: string -> Option<Zone>)
    requires lookup(tz).Some?
    ensures SetTimezone(v, tz, lookup) == Entry.SetTimezone(v, tz, lookup)
    ensures AdjustTimezone(v, tz, lookup) == Entry.AdjustTimezone(v, tz, lookup)
  {
  }

  /** The local end of the day is 86399 seconds after the local beginning. */
  lemma EndOfDaySpan(v: Time, localOffset: int)
    ensures Sub(EndOfDay(v, localOffset), BeginOfDay(v, localOffset)) == 86399 * NanosPerSecond
  {
    var b, e := BeginOfDay(v, localOffset), EndOfDay(v, localOffset);
    LocalSplit(b);
    LocalSplit(e);
    ClockFields(e);
  }

  /** The standalone boundaries are timefy.go's, and when `v` is already shown
      in the local zone they are entry.go's. */
  lemma BoundariesAgree(v: Time, localOffset: int)
    ensures BeginOfDay(v, localOffset) == Timefy.BeginOfDay(v, localOffset)
    ensures EndOfDay(v, localOffset) == Timefy.EndOfDayX(v, localOffset)
    ensures v.zone == Local(localOffset) ==> BeginOfDay(v, localOffset) == Entry.BeginOfDay(v)
    ensures v.zone == Local(localOffset) ==> EndOfDay(v, localOffset) == Entry.FEndOfDay(v)
  {
  }

  /** Going back `day` days and then taking the boundary is taking the boundary
      of the time `day` whole days earlier. */
  lemma PrevBeginOfDayIsShift(v: Time, day: int, localOffset: int)
    ensures PrevBeginOfDay(v, day, localOffset) == BeginOfDay(DaysLater(v, -day), localOffset)
    ensures PrevEndOfDay(v, day, localOffset) == EndOfDay(DaysLater(v, -day), localOffset)
  {
    AddDateDays(v, -day);
    var w := AddDate(v, 0, 0, -day);
    assert w == DaysLater(v, -day);
    assert PrevBeginOfDay(v, day, localOffset) == BeginOfDay(w, localOffset);
  }
}
