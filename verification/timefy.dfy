/** The day boundaries of timefy.go.  Both build their result in the process's
    local zone (`v.Local().Location()`) from the date `v` shows in its own zone;
    the local offset is a parameter. */
module Timefy {
  import opened Calendar
  import opened Clock

  /** Midnight, in the local zone, on the date `v` shows. */
  function BeginOfDay(v: Time, localOffset: int): (r: Time)
    ensures r.zone == Local(localOffset)
    ensures DateOf(r) == DateOf(v) && DayNumber(r) == DayNumber(v)
    ensures Hour(r) == 0 && Minute(r) == 0 && Second(r) == 0 && Nanosecond(r) == 0
    ensures NanoOfDay(r) == 0
  {
    DayNumberOfDate(v);
    MakeTimeFields(Year(v), Month(v), Day(v), 0, 0, 0, 0, Local(localOffset));
    MakeTime(Year(v), Month(v), Day(v), 0, 0, 0, 0, Local(localOffset))
  }

  /** 23:59:59, with no nanoseconds, in the local zone, on the date `v` shows. */
  function EndOfDayX(v: Time, localOffset: int): (r: Time)
    ensures r.zone == Local(localOffset)
    ensures DateOf(r) == DateOf(v) && DayNumber(r) == DayNumber(v)
    ensures Hour(r) == 23 && Minute(r) == 59 && Second(r) == 59 && Nanosecond(r) == 0
  {
    DayNumberOfDate(v);
    MakeTimeFields(Year(v), Month(v), Day(v), 23, 59, 59, 0, Local(localOffset));
    MakeTime(Year(v), Month(v), Day(v), 23, 59, 59, 0, Local(localOffset))
  }

  /** The end of the day is 86399 seconds after its beginning: the last whole
      second, not the last nanosecond. */
  lemma EndOfDayXSpan(v: Time, localOffset: int)
    ensures Sub(EndOfDayX(v, localOffset), BeginOfDay(v, localOffset)) == 86399 * NanosPerSecond
  {
    var b, e := BeginOfDay(v, localOffset), EndOfDayX(v, localOffset);
    LocalSplit(b);
    LocalSplit(e);
    ClockFields(e);
  }

  /** Both boundaries lie inside the same local day. */
  lemma BeginOfDayBounds(v: Time, localOffset: int)
    ensures var b := BeginOfDay(v, localOffset);
            LocalNanos(b) % NanosPerDay == 0 && LocalNanos(EndOfDayX(v, localOffset)) < LocalNanos(b) + NanosPerDay
  {
    EndOfDayXSpan(v, localOffset);
    LocalSplit(BeginOfDay(v, localOffset));
  }

  /** Taking the beginning of the day twice changes nothing. */
  lemma BeginOfDayIdempotent(v: Time, localOffset: int)
    ensures BeginOfDay(BeginOfDay(v, localOffset), localOffset) == BeginOfDay(v, localOffset)
  {
  }

  /** The end of the day has the same beginning of the day as `v`. */
  lemma EndOfDayXSameDay(v: Time, localOffset: int)
    ensures BeginOfDay(EndOfDayX(v, localOffset), localOffset) == BeginOfDay(v, localOffset)
    ensures EndOfDayX(BeginOfDay(v, localOffset), localOffset) == EndOfDayX(v, localOffset)
  {
  }
}
