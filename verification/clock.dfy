/** Instants and their civil fields, as the Go `time` package presents them for
    a location with one fixed offset from UTC.

    A `Time` is a number of nanoseconds since 1970-01-01T00:00:00Z together with
    the zone it is shown in.  Its civil fields (year ... nanosecond) are read off
    the local nanosecond count; `MakeTime` is the package's `time.Date`,
    including its normalisation of out-of-range months and days, and `AddDate`
    is `Time.AddDate`. */
module Clock {
  import opened Calendar

  const NanosPerSecond: int := 1_000_000_000
  const NanosPerMinute: int := 60_000_000_000
  const NanosPerHour: int := 3_600_000_000_000
  const NanosPerDay: int := 86_400_000_000_000

  /** Seconds from 1970-01-01 back to January 1 of year 1, the package's zero time. */
  const ZeroTimeUnixSeconds: int := -62135596800

  datatype Option<T> = None | Some(value: T)

  /** A location, reduced to its name and its offset east of UTC in seconds. */
  datatype Zone = Zone(name: string, offsetSeconds: int)

  const UTC: Zone := Zone("UTC", 0)

  /** The process's local zone; its offset is a property of the host. */
  function Local(offsetSeconds: int): Zone
  {
    Zone("Local", offsetSeconds)
  }

  /** Days of the week, numbered as the package numbers them. */
  type Weekday = w: int | 0 <= w < 7
  const Sunday: Weekday := 0
  const Monday: Weekday := 1
  const Tuesday: Weekday := 2
  const Wednesday: Weekday := 3
  const Thursday: Weekday := 4
  const Friday: Weekday := 5
  const Saturday: Weekday := 6

  datatype Time = Time(unixNanos: int, zone: Zone)

  /** Nanoseconds since 1970-01-01T00:00:00 on the wall clock of the time's zone. */
  function LocalNanos(t: Time): int
  {
    t.unixNanos + t.zone.offsetSeconds * NanosPerSecond
  }

  function DayNumber(t: Time): int
  {
    LocalNanos(t) / NanosPerDay
  }

  function NanoOfDay(t: Time): int
  {
    LocalNanos(t) % NanosPerDay
  }

  function DateOf(t: Time): Date
  {
    CivilFromDays(DayNumber(t))
  }

  function Year(t: Time): int { DateOf(t).year }
  function Month(t: Time): int { DateOf(t).month }
  function Day(t: Time): int { DateOf(t).day }
  function Hour(t: Time): int { NanoOfDay(t) / NanosPerHour }
  function Minute(t: Time): int { NanoOfDay(t) % NanosPerHour / NanosPerMinute }
  function Second(t: Time): int { NanoOfDay(t) % NanosPerMinute / NanosPerSecond }
  function Nanosecond(t: Time): int { NanoOfDay(t) % NanosPerSecond }

  function WeekdayOf(t: Time): Weekday
  {
    WeekdayOfDay(DayNumber(t))
  }

  function ClockNanos(hour: int, min: int, sec: int, nsec: int): int
  {
    hour * NanosPerHour + min * NanosPerMinute + sec * NanosPerSecond + nsec
  }

  predicate ValidClock(hour: int, min: int, sec: int, nsec: int)
  {
    0 <= hour < 24 && 0 <= min < 60 && 0 <= sec < 60 && 0 <= nsec < NanosPerSecond
  }

  /** `time.Date(year, month, day, hour, min, sec, nsec, zone)`: the month is
      normalised into 1..12 with a carry into the year, every other field
      overflows linearly into the next coarser one. */
  function MakeTime(year: int, month: int, day: int, hour: int, min: int, sec: int, nsec: int, zone: Zone): Time
  {
    var y := year + (month - 1) / 12;
    var m := (month - 1) % 12 + 1;
    var days := DaysFromCivil(y, m, 1) + day - 1;
    var local := days * NanosPerDay + ClockNanos(hour, min, sec, nsec);
    Time(local - zone.offsetSeconds * NanosPerSecond, zone)
  }

  /** `t.Add(d)`. */
  function Add(t: Time, d: int): Time
  {
    Time(t.unixNanos + d, t.zone)
  }

  /** `k` whole days of 24 hours after `t`. */
  function DaysLater(t: Time, k: int): Time
  {
    Add(t, k * NanosPerDay)
  }

  /** `t.Sub(u)`. */
  function Sub(t: Time, u: Time): int
  {
    t.unixNanos - u.unixNanos
  }

  /** `t.In(zone)`: the same instant shown in another zone. */
  function In(t: Time, zone: Zone): Time
  {
    Time(t.unixNanos, zone)
  }

  /** `t.Truncate(d)`: rounds down to a multiple of `d` counted from the zero time. */
  function Truncate(t: Time, d: int): Time
    requires d > 0
  {
    Add(t, -((t.unixNanos - ZeroTimeUnixSeconds * NanosPerSecond) % d))
  }

  /** `t.AddDate(years, months, days)`. */
  function AddDate(t: Time, years: int, months: int, days: int): Time
  {
    MakeTime(Year(t) + years, Month(t) + months, Day(t) + days, Hour(t), Minute(t), Second(t), Nanosecond(t), t.zone)
  }

  /** The clock fields are in range and add up to the nanosecond of the day. */
  lemma ClockFields(t: Time)
    ensures ValidClock(Hour(t), Minute(t), Second(t), Nanosecond(t))
    ensures NanoOfDay(t) == ClockNanos(Hour(t), Minute(t), Second(t), Nanosecond(t))
  {
    ClockSplit(NanoOfDay(t));
  }

  lemma ClockSplit(n: int)
    requires 0 <= n < NanosPerDay
    ensures ValidClock(n / NanosPerHour, n % NanosPerHour / NanosPerMinute, n % NanosPerMinute / NanosPerSecond, n % NanosPerSecond)
    ensures n == ClockNanos(n / NanosPerHour, n % NanosPerHour / NanosPerMinute, n % NanosPerMinute / NanosPerSecond, n % NanosPerSecond)
  {
    var r1 := n % NanosPerHour;
    assert n == n / NanosPerHour * NanosPerHour + r1;
    var r2 := r1 % NanosPerMinute;
    assert r1 == r1 / NanosPerMinute * NanosPerMinute + r2;
    assert n % NanosPerMinute == r2;
    assert r2 == r2 / NanosPerSecond * NanosPerSecond + r2 % NanosPerSecond;
    assert n % NanosPerSecond == r2 % NanosPerSecond;
  }

  /** Clock fields in range are recovered from their nanosecond of the day. */
  lemma ClockUnique(hour: int, min: int, sec: int, nsec: int)
    requires ValidClock(hour, min, sec, nsec)
    ensures var n := ClockNanos(hour, min, sec, nsec);
            && 0 <= n < NanosPerDay
            && n / NanosPerHour == hour
            && n % NanosPerHour / NanosPerMinute == min
            && n % NanosPerMinute / NanosPerSecond == sec
            && n % NanosPerSecond == nsec
            && n % NanosPerHour == min * NanosPerMinute + sec * NanosPerSecond + nsec
            && n % NanosPerMinute == sec * NanosPerSecond + nsec
  {
    var r2 := sec * NanosPerSecond + nsec;
    assert 0 <= r2 < NanosPerMinute;
    var r1 := min * NanosPerMinute + r2;
    assert 0 <= r1 < NanosPerHour;
    var n := hour * NanosPerHour + r1;
    assert n / NanosPerHour == hour && n % NanosPerHour == r1;
    assert r1 / NanosPerMinute == min && r1 % NanosPerMinute == r2;
    assert n == (60 * hour + min) * NanosPerMinute + r2;
    assert n % NanosPerMinute == r2;
    assert r2 / NanosPerSecond == sec && r2 % NanosPerSecond == nsec;
    assert n == (3600 * hour + 60 * min + sec) * NanosPerSecond + nsec;
  }

  /** Local nanoseconds split into a day number and a nanosecond of the day. */
  lemma LocalSplit(t: Time)
    ensures LocalNanos(t) == DayNumber(t) * NanosPerDay + NanoOfDay(t)
    ensures 0 <= NanoOfDay(t) < NanosPerDay
  {
  }

  lemma DayDivMod(days: int, n: int)
    requires 0 <= n < NanosPerDay
    ensures (days * NanosPerDay + n) / NanosPerDay == days
    ensures (days * NanosPerDay + n) % NanosPerDay == n
  {
  }

  /** Adding one day does not change the remainder modulo a day. */
  lemma DayShiftMod(x: int)
    ensures (x + NanosPerDay) % NanosPerDay == x % NanosPerDay
  {
    var q := x / NanosPerDay;
    assert x + NanosPerDay == (q + 1) * NanosPerDay + x % NanosPerDay;
    DayDivMod(q + 1, x % NanosPerDay);
  }

  /** `time.Date` with in-range fields builds a time whose fields are exactly those. */
  lemma MakeTimeFields(year: int, month: int, day: int, hour: int, min: int, sec: int, nsec: int, zone: Zone)
    requires ValidDate(Date(year, month, day))
    requires ValidClock(hour, min, sec, nsec)
    ensures var t := MakeTime(year, month, day, hour, min, sec, nsec, zone);
            && t.zone == zone
            && DayNumber(t) == DaysFromCivil(year, month, day)
            && NanoOfDay(t) == ClockNanos(hour, min, sec, nsec)
            && DateOf(t) == Date(year, month, day)
            && Hour(t) == hour && Minute(t) == min && Second(t) == sec && Nanosecond(t) == nsec
  {
    assert (month - 1) / 12 == 0 && (month - 1) % 12 + 1 == month;
    var t := MakeTime(year, month, day, hour, min, sec, nsec, zone);
    ClockUnique(hour, min, sec, nsec);
    var z := DaysFromCivil(year, month, day);
    assert LocalNanos(t) == z * NanosPerDay + ClockNanos(hour, min, sec, nsec);
    DayDivMod(z, ClockNanos(hour, min, sec, nsec));
    DateRoundTrip(Date(year, month, day));
  }

  /** A time's day number is the day number of its civil date. */
  lemma DayNumberOfDate(t: Time)
    ensures DaysFromCivil(Year(t), Month(t), Day(t)) == DayNumber(t)
    ensures ValidDate(DateOf(t))
  {
  }

  /** Rebuilding a time from its own fields gives the time back. */
  lemma MakeTimeOfFields(t: Time)
    ensures MakeTime(Year(t), Month(t), Day(t), Hour(t), Minute(t), Second(t), Nanosecond(t), t.zone) == t
  {
    ClockFields(t);
    LocalSplit(t);
    var dt := DateOf(t);
    assert (dt.month - 1) / 12 == 0 && (dt.month - 1) % 12 + 1 == dt.month;
    assert DaysFromCivil(dt.year, dt.month, 1) + dt.day - 1 == DayNumber(t);
  }

  /** Shifting by whole days moves the day number and keeps the clock. */
  lemma AddWholeDays(t: Time, n: int)
    ensures DayNumber(Add(t, n * NanosPerDay)) == DayNumber(t) + n
    ensures NanoOfDay(Add(t, n * NanosPerDay)) == NanoOfDay(t)
  {
    LocalSplit(t);
    assert LocalNanos(Add(t, n * NanosPerDay)) == (DayNumber(t) + n) * NanosPerDay + NanoOfDay(t);
    DayDivMod(DayNumber(t) + n, NanoOfDay(t));
  }

  /** In a fixed-offset zone, `AddDate(0, 0, n)` is exactly `n` times 24 hours. */
  lemma AddDateDays(t: Time, n: int)
    ensures AddDate(t, 0, 0, n) == Add(t, n * NanosPerDay)
  {
    ClockFields(t);
    LocalSplit(t);
    var dt := DateOf(t);
    assert (dt.month - 1) / 12 == 0 && (dt.month - 1) % 12 + 1 == dt.month;
    assert DaysFromCivil(dt.year, dt.month, 1) + dt.day + n - 1 == DayNumber(t) + n;
  }
}
