/** The `Timex` wrapper of time.go: a time paired with a configuration, and the
    boundaries of the minute, hour, day, week, month, quarter, half-year and
    year that contain it, each in the time's own zone. */
module Timex {
  import opened Calendar
  import opened Clock
  import Const
  import Entry

  /** The configuration record: first day of the week, an optional location
      and the layouts the parser tries. */
  datatype Config = Config(weekStartDay: Weekday, timeLocation: Option<Zone>, timeFormats: seq<string>)

  datatype Timex = Timex(time: Time, config: Config)

  /** Wraps `v` with the package's default configuration or, when none is set,
      with one built from the default week start and the given layout table
      and no location. */
  function With(v: Time, defaultConfig: Option<Config>, timeFormats: seq<string>): (r: Timex)
    ensures r.time == v
    ensures defaultConfig.Some? ==> r == ConfigWith(defaultConfig.value, v)
    ensures defaultConfig.None? ==> r.config == Config(Sunday, None, timeFormats)
  {
    var c := if defaultConfig.None? then Config(Const.WeekStartDay, None, timeFormats) else defaultConfig.value;
    Timex(v, c)
  }

  /** Wraps `v` with the configuration `c`. */
  function ConfigWith(c: Config, v: Time): (r: Timex)
    ensures r.time == v && r.config == c
  {
    Timex(v, c)
  }

  /** Both constructors keep the time as given, so every boundary below depends
      only on the time and, for the week, on the configured first day. */
  lemma WithKeepsTime(v: Time, defaultConfig: Option<Config>, timeFormats: seq<string>, c: Config)
    ensures With(v, defaultConfig, timeFormats).time == ConfigWith(c, v).time == v
    ensures With(v, Some(c), timeFormats) == ConfigWith(c, v)
  {
  }

  /** `Truncate(time.Minute)`: the last whole minute, counted from the zero time. */
  function BeginningOfMinute(t: Timex): (r: Time)
    ensures r.zone == t.time.zone
    ensures r.unixNanos <= t.time.unixNanos < r.unixNanos + NanosPerMinute
    ensures (r.unixNanos - ZeroTimeUnixSeconds * NanosPerSecond) % NanosPerMinute == 0
  {
    var x := t.time.unixNanos - ZeroTimeUnixSeconds * NanosPerSecond;
    MinuteMultiple(x / NanosPerMinute);
    Truncate(t.time, NanosPerMinute)
  }

  lemma MinuteMultiple(q: int)
    ensures (q * NanosPerMinute) % NanosPerMinute == 0
  {
  }

  lemma MinuteDivMod(q: int, x: int)
    requires 0 <= x < NanosPerMinute
    ensures (q * NanosPerMinute + x) % NanosPerMinute == x
  {
  }

  /** In a zone whose offset is a whole number of minutes, the beginning of the
      minute keeps the date, the hour and the minute and clears the rest. */
  lemma BeginningOfMinuteFields(t: Timex)
    requires t.time.zone.offsetSeconds % 60 == 0
    ensures var r := BeginningOfMinute(t);
            && DayNumber(r) == DayNumber(t.time) && DateOf(r) == DateOf(t.time)
            && Hour(r) == Hour(t.time) && Minute(r) == Minute(t.time)
            && Second(r) == 0 && Nanosecond(r) == 0
  {
    var v := t.time;
    var h, mi, s, ns := Hour(v), Minute(v), Second(v), Nanosecond(v);
    ClockFields(v);
    LocalSplit(v);
    ClockUnique(h, mi, s, ns);
    var d, n := DayNumber(v), NanoOfDay(v);
    var off := v.zone.offsetSeconds;
    var k := d * 1440 + n / NanosPerMinute - off / 60 - ZeroTimeUnixSeconds / 60;
    var x := s * NanosPerSecond + ns;
    assert n == n / NanosPerMinute * NanosPerMinute + x;
    assert v.unixNanos - ZeroTimeUnixSeconds * NanosPerSecond == k * NanosPerMinute + x;
    MinuteDivMod(k, x);
    var r := BeginningOfMinute(t);
    assert LocalNanos(r) == d * NanosPerDay + ClockNanos(h, mi, 0, 0);
    ClockUnique(h, mi, 0, 0);
    DayDivMod(d, ClockNanos(h, mi, 0, 0));
  }

  /** One nanosecond before the next minute. */
  function EndOfMinute(t: Timex): (r: Time)
    ensures r.zone == t.time.zone
    ensures r.unixNanos == BeginningOfMinute(t).unixNanos + NanosPerMinute - 1
    ensures t.time.unixNanos <= r.unixNanos < t.time.unixNanos + NanosPerMinute
  {
    Add(BeginningOfMinute(t), NanosPerMinute - 1)
  }

  /** In a zone whose offset is a whole number of minutes, the end of the minute
      shows second 59 and nanosecond 999999999 of the same minute. */
  lemma EndOfMinuteFields(t: Timex)
    requires t.time.zone.offsetSeconds % 60 == 0
    ensures var r := EndOfMinute(t);
            && DayNumber(r) == DayNumber(t.time) && DateOf(r) == DateOf(t.time)
            && Hour(r) == Hour(t.time) && Minute(r) == Minute(t.time)
            && Second(r) == 59 && Nanosecond(r) == 999_999_999
  {
    var v := t.time;
    var b := BeginningOfMinute(t);
    BeginningOfMinuteFields(t);
    ClockFields(b);
    LocalSplit(b);
    var h, mi := Hour(v), Minute(v);
    assert LocalNanos(EndOfMinute(t)) == DayNumber(v) * NanosPerDay + ClockNanos(h, mi, 59, 999_999_999);
    ClockUnique(h, mi, 59, 999_999_999);
    DayDivMod(DayNumber(v), ClockNanos(h, mi, 59, 999_999_999));
  }

  /** The start of the hour: same date and hour, everything finer cleared. */
  function BeginningOfHour(t: Timex): (r: Time)
    ensures r.zone == t.time.zone
    ensures DayNumber(r) == DayNumber(t.time) && DateOf(r) == DateOf(t.time)
    ensures Hour(r) == Hour(t.time) && Minute(r) == 0 && Second(r) == 0 && Nanosecond(r) == 0
    ensures r.unixNanos <= t.time.unixNanos < r.unixNanos + NanosPerHour
  {
    var v := t.time;
    ClockFields(v);
    DayNumberOfDate(v);
    LocalSplit(v);
    MakeTimeFields(Year(v), Month(v), Day(v), Hour(v), 0, 0, 0, v.zone);
    LocalSplit(MakeTime(Year(v), Month(v), Day(v), Hour(v), 0, 0, 0, v.zone));
    MakeTime(Year(v), Month(v), Day(v), Hour(v), 0, 0, 0, v.zone)
  }

  /** Midnight on the time's date. */
  function BeginningOfDay(t: Timex): (r: Time)
    ensures r.zone == t.time.zone
    ensures DayNumber(r) == DayNumber(t.time) && DateOf(r) == DateOf(t.time)
    ensures NanoOfDay(r) == 0
    ensures Hour(r) == 0 && Minute(r) == 0 && Second(r) == 0 && Nanosecond(r) == 0
    ensures r.unixNanos <= t.time.unixNanos < r.unixNanos + NanosPerDay
  {
    var v := t.time;
    DayNumberOfDate(v);
    LocalSplit(v);
    MakeTimeFields(Year(v), Month(v), Day(v), 0, 0, 0, 0, v.zone);
    LocalSplit(MakeTime(Year(v), Month(v), Day(v), 0, 0, 0, 0, v.zone));
    MakeTime(Year(v), Month(v), Day(v), 0, 0, 0, 0, v.zone)
  }

  /** The method and entry.go's free helper compute the same midnight. */
  lemma BeginningOfDayIsBeginOfDay(t: Timex)
    ensures BeginningOfDay(t) == Entry.BeginOfDay(t.time)
  {
  }

  /** How many days back the week began: the weekday itself when weeks start
      on Sunday, otherwise the distance back to the configured day. */
  function WeekOffset(weekday: Weekday, weekStartDay: Weekday): int
  {
    if weekStartDay != Sunday then
      if weekday < weekStartDay then weekday + 7 - weekStartDay else weekday - weekStartDay
    else
      weekday
  }

  /** Midnight on the most recent configured first day of the week, at most six
      days back. */
  function BeginningOfWeek(t: Timex): (r: Time)
    ensures r.zone == t.time.zone
    ensures WeekdayOf(r) == t.config.weekStartDay
    ensures DayNumber(t.time) - 6 <= DayNumber(r) <= DayNumber(t.time)
    ensures NanoOfDay(r) == 0
    ensures Hour(r) == 0 && Minute(r) == 0 && Second(r) == 0 && Nanosecond(r) == 0
    ensures r.unixNanos <= t.time.unixNanos
  {
    var day := BeginningOfDay(t);
    var weekday := WeekdayOf(day);
    var back := WeekOffset(weekday, t.config.weekStartDay);
    WeekOffsetLands(DayNumber(day), t.config.weekStartDay);
    MidnightsBack(day, back);
    AddDate(day, 0, 0, -back)
  }

  /** From a midnight, `AddDate(0, 0, -k)` is the midnight `k` days earlier. */
  lemma MidnightsBack(day: Time, k: int)
    requires NanoOfDay(day) == 0 && 0 <= k
    ensures var r := AddDate(day, 0, 0, -k);
            && r.zone == day.zone && DayNumber(r) == DayNumber(day) - k
            && NanoOfDay(r) == 0 && r.unixNanos <= day.unixNanos
  {
    AddDateDays(day, -k);
    AddWholeDays(day, -k);
  }

  lemma WeekOffsetLands(z: int, weekStartDay: Weekday)
    ensures var back := WeekOffset(WeekdayOfDay(z), weekStartDay);
            0 <= back < 7 && WeekdayOfDay(z - back) == weekStartDay
  {
    WeekdayBack(z, WeekOffset(WeekdayOfDay(z), weekStartDay));
  }

  /** The beginning of the week is the only day of the last seven (the time's
      own date included) that falls on the configured first day. */
  lemma BeginningOfWeekUnique(t: Timex, z: int)
    requires DayNumber(t.time) - 6 <= z <= DayNumber(t.time)
    requires WeekdayOfDay(z) == t.config.weekStartDay
    ensures z == DayNumber(BeginningOfWeek(t))
  {
    var d := DayNumber(t.time);
    var w := BeginningOfWeek(t);
    WeekdayBackInjective(d, d - z, d - DayNumber(w));
  }

  /** Distinct distances back of less than a week land on distinct weekdays. */
  lemma WeekdayBackInjective(d: int, a: int, b: int)
    requires 0 <= a < 7 && 0 <= b < 7
    requires WeekdayOfDay(d - a) == WeekdayOfDay(d - b)
    ensures a == b
  {
    WeekdayBack(d, a);
    WeekdayBack(d, b);
  }

  /** On the configured first day the week begins the same day. */
  lemma BeginningOfWeekOnStartDay(t: Timex)
    requires WeekdayOf(t.time) == t.config.weekStartDay
    ensures BeginningOfWeek(t) == BeginningOfDay(t)
  {
    BeginningOfWeekUnique(t, DayNumber(t.time));
    LocalSplit(BeginningOfWeek(t));
    LocalSplit(BeginningOfDay(t));
  }

  /** Wednesday 25 October 2023: the week began on Sunday the 22nd by default
      and on Monday the 23rd when weeks start on Monday. */
  lemma BeginningOfWeekExample(c: Config)
    requires c.weekStartDay == Sunday || c.weekStartDay == Monday
    ensures var t := Timex(MakeTime(2023, 10, 25, 14, 30, 0, 0, UTC), c);
            BeginningOfWeek(t) == MakeTime(2023, 10, if c.weekStartDay == Sunday then 22 else 23, 0, 0, 0, 0, UTC)
  {
    var t := Timex(MakeTime(2023, 10, 25, 14, 30, 0, 0, UTC), c);
    var day := if c.weekStartDay == Sunday then 22 else 23;
    Oct2023(25);
    Oct2023(day);
    MakeTimeFields(2023, 10, 25, 14, 30, 0, 0, UTC);
    var r := BeginningOfWeek(t);
    BeginningOfWeekUnique(t, 19630 + day);
    LocalSplit(r);
    assert r.unixNanos == (19630 + day) * NanosPerDay;
  }

  /** Midnight UTC on day `d` of October 2023 is day number 19630 + `d`. */
  lemma Oct2023(d: int)
    requires 1 <= d <= 31
    ensures ValidDate(Date(2023, 10, d))
    ensures DaysFromCivil(2023, 10, d) == 19630 + d
    ensures MakeTime(2023, 10, d, 0, 0, 0, 0, UTC).unixNanos == (19630 + d) * NanosPerDay
    ensures WeekdayOfDay(19630 + d) == (d + 6) % 7
  {
    assert MarchYearStart(2023) == 19417 by {
      assert 2023 / 400 == 5 && 2023 % 400 == 23;
      assert YearStart(23) == 8400;
    }
    WeekdayPeriodic(d + 2, 2804);
  }

  /** The first of the month at midnight. */
  function BeginningOfMonth(t: Timex): (r: Time)
    ensures r.zone == t.time.zone
    ensures Year(r) == Year(t.time) && Month(r) == Month(t.time) && Day(r) == 1
    ensures NanoOfDay(r) == 0
    ensures Hour(r) == 0 && Minute(r) == 0 && Second(r) == 0 && Nanosecond(r) == 0
    ensures DayNumber(r) == DayNumber(t.time) - (Day(t.time) - 1)
    ensures r.unixNanos <= t.time.unixNanos
  {
    var v := t.time;
    DayNumberOfDate(v);
    LocalSplit(v);
    MakeTimeFields(Year(v), Month(v), 1, 0, 0, 0, 0, v.zone);
    LocalSplit(MakeTime(Year(v), Month(v), 1, 0, 0, 0, 0, v.zone));
    MakeTime(Year(v), Month(v), 1, 0, 0, 0, 0, v.zone)
  }

  /** The first of an earlier month of the same year, at midnight, is no later than `t`. */
  lemma FirstOfEarlierMonth(t: Timex, m: int)
    requires 1 <= m <= Month(t.time)
    ensures var r := MakeTime(Year(t.time), m, 1, 0, 0, 0, 0, t.time.zone);
            && Year(r) == Year(t.time) && Month(r) == m && Day(r) == 1
            && NanoOfDay(r) == 0 && r.zone == t.time.zone
            && Hour(r) == 0 && Minute(r) == 0 && Second(r) == 0 && Nanosecond(r) == 0
            && r.unixNanos <= t.time.unixNanos
  {
    var v := t.time;
    var b := BeginningOfMonth(t);
    MakeTimeFields(Year(v), m, 1, 0, 0, 0, 0, v.zone);
    FirstOfMonthMonotone(Year(v), m, Month(v));
    DayNumberOfDate(b);
    var r := MakeTime(Year(v), m, 1, 0, 0, 0, 0, v.zone);
    LocalSplit(r);
    LocalSplit(b);
  }

  /** The first month of the quarter: `m - (m - 1) % 3`, with day 1 at midnight. */
  function BeginningOfQuarter(t: Timex): (r: Time)
    ensures r.zone == t.time.zone
    ensures Year(r) == Year(t.time) && Month(r) in {1, 4, 7, 10} && Day(r) == 1
    ensures Month(r) <= Month(t.time) < Month(r) + 3
    ensures Hour(r) == 0 && Minute(r) == 0 && Second(r) == 0 && Nanosecond(r) == 0
    ensures r.unixNanos <= t.time.unixNanos
  {
    var month := BeginningOfMonth(t);
    var offset := (Month(month) - 1) % 3;
    PeriodStart(Month(t.time), 3);
    MonthsBack(t, offset);
    AddDate(month, 0, -offset, 0)
  }

  /** The first month of the half-year: `m - (m - 1) % 6`, with day 1 at midnight. */
  function BeginningOfHalf(t: Timex): (r: Time)
    ensures r.zone == t.time.zone
    ensures Year(r) == Year(t.time) && Month(r) in {1, 7} && Day(r) == 1
    ensures Month(r) <= Month(t.time) < Month(r) + 6
    ensures Hour(r) == 0 && Minute(r) == 0 && Second(r) == 0 && Nanosecond(r) == 0
    ensures r.unixNanos <= t.time.unixNanos
  {
    var month := BeginningOfMonth(t);
    var offset := (Month(month) - 1) % 6;
    PeriodStart(Month(t.time), 6);
    MonthsBack(t, offset);
    AddDate(month, 0, -offset, 0)
  }

  /** Month `m` lies in the period of `len` months that starts at `m - (m - 1) % len`. */
  lemma PeriodStart(m: int, len: int)
    requires 1 <= m <= 12 && (len == 3 || len == 6)
    ensures var first := m - (m - 1) % len;
            && 0 <= (m - 1) % len < m && first <= m < first + len
            && (len == 3 ==> first in {1, 4, 7, 10})
            && (len == 6 ==> first in {1, 7})
  {
    var q := (m - 1) / len;
    assert m - 1 == len * q + (m - 1) % len;
    if len == 3 {
      assert 0 <= q < 4;
      assert m - (m - 1) % len == 3 * q + 1;
    } else {
      assert 0 <= q < 2;
      assert m - (m - 1) % len == 6 * q + 1;
    }
  }

  /** Moving the first of the month back `k` months within the year gives the
      first of that month at midnight, no later than `t`. */
  lemma MonthsBack(t: Timex, k: int)
    requires 0 <= k < Month(t.time)
    ensures var r := AddDate(BeginningOfMonth(t), 0, -k, 0);
            && r == MakeTime(Year(t.time), Month(t.time) - k, 1, 0, 0, 0, 0, t.time.zone)
            && Year(r) == Year(t.time) && Month(r) == Month(t.time) - k && Day(r) == 1
            && r.zone == t.time.zone
            && Hour(r) == 0 && Minute(r) == 0 && Second(r) == 0 && Nanosecond(r) == 0
            && r.unixNanos <= t.time.unixNanos
  {
    DayNumberOfDate(t.time);
    FirstOfEarlierMonth(t, Month(t.time) - k);
  }

  /** 1 January of the time's year at midnight. */
  function BeginningOfYear(t: Timex): (r: Time)
    ensures r.zone == t.time.zone
    ensures Year(r) == Year(t.time) && Month(r) == 1 && Day(r) == 1
    ensures Hour(r) == 0 && Minute(r) == 0 && Second(r) == 0 && Nanosecond(r) == 0
    ensures r.unixNanos <= t.time.unixNanos
  {
    FirstOfEarlierMonth(t, 1);
    MakeTime(Year(t.time), 1, 1, 0, 0, 0, 0, t.time.zone)
  }

  /** Every boundary is a fixed point: taking it again changes nothing. */
  lemma BeginningOfMinuteIdempotent(t: Timex)
    ensures BeginningOfMinute(Timex(BeginningOfMinute(t), t.config)) == BeginningOfMinute(t)
  {
    var m := BeginningOfMinute(t);
    MinuteDivMod((m.unixNanos - ZeroTimeUnixSeconds * NanosPerSecond) / NanosPerMinute, 0);
  }

  lemma BeginningOfHourIdempotent(t: Timex)
    ensures BeginningOfHour(Timex(BeginningOfHour(t), t.config)) == BeginningOfHour(t)
  {
  }

  lemma BeginningOfDayIdempotent(t: Timex)
    ensures BeginningOfDay(Timex(BeginningOfDay(t), t.config)) == BeginningOfDay(t)
  {
  }

  lemma BeginningOfWeekIdempotent(t: Timex)
    ensures BeginningOfWeek(Timex(BeginningOfWeek(t), t.config)) == BeginningOfWeek(t)
  {
    var w := BeginningOfWeek(t);
    BeginningOfWeekOnStartDay(Timex(w, t.config));
    MakeTimeOfFields(w);
  }

  lemma BeginningOfMonthIdempotent(t: Timex)
    ensures BeginningOfMonth(Timex(BeginningOfMonth(t), t.config)) == BeginningOfMonth(t)
  {
  }

  lemma BeginningOfQuarterIdempotent(t: Timex)
    ensures BeginningOfQuarter(Timex(BeginningOfQuarter(t), t.config)) == BeginningOfQuarter(t)
  {
    var q := BeginningOfQuarter(t);
    QuarterFixed(Timex(q, t.config));
  }

  /** A time at midnight on the first of a quarter's first month is its own beginning of the quarter. */
  lemma QuarterFixed(u: Timex)
    requires Month(u.time) in {1, 4, 7, 10} && Day(u.time) == 1
    requires Hour(u.time) == 0 && Minute(u.time) == 0 && Second(u.time) == 0 && Nanosecond(u.time) == 0
    ensures BeginningOfQuarter(u) == u.time
  {
    assert (Month(u.time) - 1) % 3 == 0;
    MonthsBack(u, 0);
    MakeTimeOfFields(u.time);
  }

  lemma BeginningOfHalfIdempotent(t: Timex)
    ensures BeginningOfHalf(Timex(BeginningOfHalf(t), t.config)) == BeginningOfHalf(t)
  {
    var h := BeginningOfHalf(t);
    HalfFixed(Timex(h, t.config));
  }

  /** A time at midnight on the first of a half-year's first month is its own beginning of the half. */
  lemma HalfFixed(u: Timex)
    requires Month(u.time) in {1, 7} && Day(u.time) == 1
    requires Hour(u.time) == 0 && Minute(u.time) == 0 && Second(u.time) == 0 && Nanosecond(u.time) == 0
    ensures BeginningOfHalf(u) == u.time
  {
    assert (Month(u.time) - 1) % 6 == 0;
    MonthsBack(u, 0);
    MakeTimeOfFields(u.time);
  }

  lemma BeginningOfYearIdempotent(t: Timex)
    ensures BeginningOfYear(Timex(BeginningOfYear(t), t.config)) == BeginningOfYear(t)
  {
  }
}
