# timefy in Dafny

A model of the core of the Go package `timefy`: helpers that snap a
`time.Time` to the start or end of its minute, hour, day, week, month,
quarter, half-year or year, and that shift times by whole units. Also
modelled:

- time-zone switching;
- the leap-year test;
- the weekday walk over a range of dates;
- the "time ago" and "time until" phrases;
- the builder for a `Rule` configuration;
- the two time-of-day regular expressions of `const.go`.

The model covers the package's API at its three levels:

- the free functions of `entry.go` and their copies in `standalone.go` and `timefy.go`;
- the `Timex` wrapper of `time.go` and `format.go`;
- the `Rule` builder of `rule.go`.

The parts of Go's standard `time` package that the core relies on are modelled too. `Calendar` holds the proleptic Gregorian calendar, and `Clock` holds instants, civil fields and `time.Date`, `Add`, `AddDate`, `In` and `Truncate`. Both are restricted to locations with one fixed offset from UTC.

Layout:

| file | module | models |
|---|---|---|
| `calendar.dfy` | `Calendar` | day numbers and civil dates, the era arithmetic, weekdays |
| `clock.dfy` | `Clock` | `time.Time`, its fields, `time.Date`, `Add`, `AddDate`, `In`, `Truncate` |
| `entry.dfy` | `Entry` | `entry.go` |
| `standalone.dfy` | `Standalone` | the members of `standalone.go` that differ from `entry.go` |
| `timefy.dfy` | `Timefy` | `timefy.go` |
| `timex.dfy` | `Timex` | `time.go` |
| `format.dfy` | `Format` | `format.go` |
| `rule.dfy` | `RuleBuilder` | `rule.go` |
| `const.dfy` | `Const` | `const.go`: `WeekStartDay` and the two regular expressions |

Modelling choices:

- **Instants.** A time is a count of nanoseconds since 1970-01-01T00:00:00Z plus a `Zone(name, offsetSeconds)`. The process's local zone is `Local(offset)`; its offset becomes a parameter wherever the source calls `v.Local()`.
- **Calendar.** The conversion from day numbers to civil dates splits a day number into a 400-year era, a year of the era and a month of the year. It is proved to return a valid date with the given day number, and that date is proved to be the only one.
- **The clock.** `time.Now()` and `time.Until` become a parameter, either `now` or the signed difference in nanoseconds.
- **Zone lookups.** `time.LoadLocation` becomes a lookup function, `string -> Option<Zone>`.
- **Regular expressions.** Each expression is stated twice:
  - as a ghost predicate that follows its grammar, with RE2's `\s` as space, tab, newline, form feed and carriage return, and `\d` as an ASCII digit;
  - as an index-based scanner. The anchored one makes a single pass; the unanchored one restarts it at every position, so it is quadratic.

  The two are proved to accept exactly the same strings.

## Model

| member | source | states |
|---|---|---|
| Entry.BeginOfDay | entry.go:24-26 | midnight of the same civil date in the same zone, at or before `v` and less than a day before it |
| Entry.FEndOfDay | entry.go:48-50 | 23:59:59.000 of the same civil date in the same zone, 86399 s after `BeginOfDay(v)` |
| Entry.PrevBeginOfDay | entry.go:72-75 | midnight of the date `day` days before `v`'s date, same zone |
| Entry.PrevEndOfDay | entry.go:97-100 | 23:59:59 of the date `day` days before `v`'s date, same zone |
| Entry.DaysEarlier | entry.go:72-75 | `AddDate(0, 0, -day)` keeps the zone and moves the day number back by `day` |
| Entry.SetTimezone | entry.go:126-133 | an unknown zone returns `v` unchanged with an error; a known one gives the same instant in that zone and no error |
| Entry.AdjustTimezone | entry.go:157-163 | an unknown zone gives `v` back; a known one gives the same instant in that zone |
| Entry.AdjustTimezoneAgrees | entry.go:157-163 | `AdjustTimezone` is the time part of `SetTimezone`, and the error is present exactly when the lookup fails |
| Entry.SetTimezoneWallClock | entry.go:126-133 | switching zones moves the wall clock by the difference of the two offsets |
| Entry.AddSecond | entry.go:186-191 | the result lies `second` seconds after `v` in the same zone; 0 returns `v` |
| Entry.AddMinute | entry.go:213-218 | the result lies `minute` minutes after `v` in the same zone; 0 returns `v` |
| Entry.AddHour | entry.go:240-245 | the result lies `hour` hours after `v` in the same zone; 0 returns `v` |
| Entry.AddDay | entry.go:268-273 | the result lies `day` × 24 h after `v` in the same zone; 0 returns `v` |
| Entry.AddUnitsNest | entry.go:186-273 | a minute is 60 seconds, an hour 60 minutes, a day 24 hours |
| Entry.AddDayCompose | entry.go:268-273 | day shifts compose additively and are undone by the opposite shift; so are second shifts |
| Entry.AddDayIsCalendarShift | entry.go:268-273 | in a fixed-offset zone `AddDay` equals `AddDate(0, 0, day)` |
| Entry.AddDayKeepsClock | entry.go:268-273 | `AddDay` moves the civil day by `day` and keeps the time of day |
| Entry.IsWithinTolerance | entry.go:299-304 | true exactly when `v` and `now` are at most one minute apart |
| Entry.IsWithinToleranceSymmetric | entry.go:299-304 | the tolerance test does not depend on which time is `now` |
| Entry.IsLeapYear | entry.go:325-327 | true exactly when the year has 366 days, and exactly when its 1 March falls 29 days after its 1 February |
| Entry.IsLeapYearExamples | entry.go:325-327 | 2000, 2004, 2020 and 2024 are leap years; 1900, 2100 and 2021-2023 are not |
| Entry.IsLeapYearN | entry.go:347-349 | true exactly when the year of `v` has 366 days |
| Entry.DayWalk | entry.go:373-387 | the loop visits `start` and every 24 h after it up to `end`, and keeps the visited times that pass the filter, in increasing order |
| Entry.DayWalkComplete | entry.go:373-387 | every step of the walk that passes the filter is in the result |
| Entry.DayWalkExactly | entry.go:373-387 | a time is in the walk's result exactly when it is a step of the walk and passes the filter |
| Entry.KeepsDayIff | entry.go:376-383 | the nested leap-year conditions keep exactly the weekdays that are not in a leap year, or that fall on 29 February |
| Entry.GetWeekdaysInRange | entry.go:373-387 | as written: the result holds exactly the steps of the walk that the conditions keep, in increasing order |
| Entry.GetWeekdaysInRangeLeap | entry.go:373-387 | as written: in a leap year the only day returned is 29 February |
| Entry.GetWeekdaysInRangeMarch2024 | entry.go:373-387 | as written: 1-10 March 2024 yields no day at all |
| Entry.WeekdaysInRange | entry.go:373-387 | corrected: exactly the steps of the walk that are Monday to Friday, in increasing order |
| Entry.WeekdaysInRangeAgreesOutsideLeapYears | entry.go:373-387 | outside leap years the corrected and as-written versions return the same days |
| Entry.WeekdaysInRangeMarch2024 | entry.go:373-387 | corrected: 1-10 March 2024 yields every day except the 2nd, 3rd, 9th and 10th |
| Entry.March2024Workday | entry.go:374-376 | among 1-10 March 2024, the 2nd, 3rd, 9th and 10th fall on a weekend |
| Entry.FormatTimex | entry.go:485-489 | seven in-range fields, nanosecond first and year last, from which `time.Date` rebuilds `t` |
| Entry.FormatTimexExample | entry.go:485-489 | 2023-10-25 14:30:45.123456789 UTC gives [123456789, 45, 30, 14, 25, 10, 2023] |
| Standalone.BeginOfDay | standalone.go:24-26 | midnight of `v`'s civil date, placed in the local zone |
| Standalone.EndOfDay | standalone.go:48-50 | 23:59:59 of `v`'s civil date, placed in the local zone |
| Standalone.PrevBeginOfDay | standalone.go:72-75 | midnight of the date `day` days earlier, in the local zone |
| Standalone.PrevEndOfDay | standalone.go:97-100 | 23:59:59 of the date `day` days earlier, in the local zone |
| Standalone.SetTimezone | standalone.go:126-130 | for a known zone: the same instant in that zone, no error |
| Standalone.AdjustTimezone | standalone.go:154-160 | for a known zone: the same instant in that zone |
| Standalone.SetTimezoneAgrees | standalone.go:126-160 | for a known zone the standalone and entry versions agree |
| Standalone.EndOfDaySpan | standalone.go:24-50 | the end of the day lies 86399 s after its beginning |
| Standalone.BoundariesAgree | standalone.go:24-50 | the standalone boundaries equal those of timefy.go, and those of entry.go for a time already in the local zone |
| Standalone.PrevBeginOfDayIsShift | standalone.go:72-100 | the earlier-day boundaries are the boundaries of `v` moved back by `day` × 24 h |
| Timefy.BeginOfDay | timefy.go:22-24 | midnight of `v`'s civil date in the local zone |
| Timefy.EndOfDayX | timefy.go:44-46 | 23:59:59 of `v`'s civil date in the local zone |
| Timefy.EndOfDayXSpan | timefy.go:22-46 | the end of the day lies 86399 s after its beginning |
| Timefy.BeginOfDayBounds | timefy.go:22-46 | the beginning is a local midnight, and the end lies before the next midnight |
| Timefy.BeginOfDayIdempotent | timefy.go:22-24 | taking the beginning of the day twice changes nothing |
| Timefy.EndOfDayXSameDay | timefy.go:22-46 | the beginning and end of the day depend only on the day |
| Timex.With | time.go:24-33 | wraps `v` unchanged; uses the default configuration when there is one, otherwise a fresh one with Sunday as the week start and the given layouts |
| Timex.ConfigWith | time.go:74-76 | wraps `v` with the receiver configuration |
| Timex.WithKeepsTime | time.go:24-76 | both constructors keep the time, and `With` under a default configuration equals `Config.With` |
| Timex.BeginningOfMinute | time.go:158-160 | at or before the time, less than a minute before it, and a whole number of minutes after the zero time |
| Timex.BeginningOfMinuteFields | time.go:158-160 | in a whole-minute zone, the same date, hour and minute with seconds and nanoseconds zero |
| Timex.EndOfMinute | time.go:331-333 | the last nanosecond of the minute: one minute minus 1 ns after its beginning, and less than a minute after the time |
| Timex.EndOfMinuteFields | time.go:331-333 | in a whole-minute zone, the same date, hour and minute with 59.999999999 seconds |
| Timex.BeginningOfHour | time.go:177-180 | the same date and hour with the rest zero, at or before the time and less than an hour before it |
| Timex.BeginningOfDay | time.go:197-200 | local midnight of the same date, at or before the time and less than a day before it |
| Timex.BeginningOfDayIsBeginOfDay | time.go:197-200 | the method agrees with entry.go's `BeginOfDay` |
| Timex.BeginningOfWeek | time.go:223-235 | a midnight on the configured first weekday, zero to six days before the time's date |
| Timex.BeginningOfWeekUnique | time.go:223-235 | it is the only day on the first weekday in that seven-day window |
| Timex.BeginningOfWeekOnStartDay | time.go:223-235 | on the first weekday itself it is the beginning of the day |
| Timex.BeginningOfWeekExample | time.go:223-235 | from Wednesday 2023-10-25, a Sunday start gives the 22nd and a Monday start gives the 23rd |
| Timex.BeginningOfMonth | time.go:251-254 | day 1 of the same year and month at midnight, `Day - 1` days before the time's date |
| Timex.BeginningOfQuarter | time.go:271-275 | the first of January, April, July or October at midnight, in the same year, at most two months back |
| Timex.BeginningOfHalf | time.go:292-296 | the first of January or July at midnight, in the same year, at most five months back |
| Timex.BeginningOfYear | time.go:313-316 | midnight on the first of January of the same year, at or before the time |
| Timex.BeginningOfMinuteIdempotent | time.go:158-160 | applying the method to its own result changes nothing |
| Timex.BeginningOfHourIdempotent | time.go:177-180 | applying the method to its own result changes nothing |
| Timex.BeginningOfDayIdempotent | time.go:197-200 | applying the method to its own result changes nothing |
| Timex.BeginningOfWeekIdempotent | time.go:223-235 | applying the method to its own result changes nothing |
| Timex.BeginningOfMonthIdempotent | time.go:251-254 | applying the method to its own result changes nothing |
| Timex.BeginningOfQuarterIdempotent | time.go:271-275 | applying the method to its own result changes nothing |
| Timex.BeginningOfHalfIdempotent | time.go:292-296 | applying the method to its own result changes nothing |
| Timex.BeginningOfYearIdempotent | time.go:313-316 | applying the method to its own result changes nothing |
| Format.TruncDiv | format.go:25-28 | the `int(...)` conversions truncate toward zero: `r * b` is the multiple of `b` closest to `a` without passing it, measured from zero, for either sign of `a` |
| Format.TimeAgo | format.go:21-58 | the phrase for the difference is the one for its bucket: under a minute "just now", otherwise the whole number of minutes, hours, days, weeks, months or years |
| Format.TimeUntil | format.go:73-113 | a negative difference is "in the past"; otherwise the "in ..." phrase for its bucket |
| Format.TimeAgoJustNow | format.go:30-32 | "just now" exactly when the difference is below one minute, including every negative difference |
| Format.ClassifyCountRange | format.go:30-57 | counts stay in their unit: at most 59 minutes, 23 hours, 6 days, 4 weeks or 12 months, and at least 1 |
| Format.ClassifyMonotone | format.go:30-57 | a larger difference never gets a smaller unit, nor a smaller count in the same unit |
| Format.SameBucket | format.go:21-113 | for a non-negative difference both phrases come from the same bucket |
| Format.TimeAgoExamples | format.go:30-57 | 0 is "just now", 5 min is "5 minutes ago", 48 h is "2 days ago", 30 days is "1 month ago", and so on |
| Format.TimeUntilExamples | format.go:73-112 | −5 min is "in the past", 5 s is "in a few seconds", 48 h is "in 2 days", and so on |
| Format.FormatInt | format.go:36 | `%d` of a count writes decimal digits without leading zeros |
| Format.FormatIntRoundTrip | format.go:36 | reading back the digits of `%d` gives the count |
| Format.FormatIntInjective | format.go:36 | different counts print differently |
| RuleBuilder.NewRule | rule.go:17-22 | Sunday as the week start, no location, the package's layouts |
| RuleBuilder.WithWeekStartDay | rule.go:37-40 | sets the week start and nothing else |
| RuleBuilder.WithTimeFormats | rule.go:55-58 | replaces the layouts and nothing else |
| RuleBuilder.WithLocation | rule.go:73-76 | sets the location and nothing else |
| RuleBuilder.WithLocationRFC | rule.go:91-94 | the location is the lookup's result, or none when the name is unknown; nothing else changes |
| RuleBuilder.ApplyUTCLoc | rule.go:106-109 | the location becomes UTC, offset 0; nothing else changes |
| RuleBuilder.ApplyLocalLoc | rule.go:121-124 | the location becomes the local zone; nothing else changes |
| RuleBuilder.AppendTimeFormat | rule.go:139-145 | no arguments leave the rule as it was; otherwise the old layouts are kept as a prefix and the arguments follow in order |
| RuleBuilder.AppendTimeFormatRFC | rule.go:160-168 | the element-by-element loop appends the same layouts as `AppendTimeFormat` |
| RuleBuilder.AppendTimeFormatRFCshort | rule.go:183-191 | the element-by-element loop appends the same layouts as `AppendTimeFormat` |
| RuleBuilder.AppendTimeFormatTwice | rule.go:139-145 | appending twice is appending the concatenation |
| RuleBuilder.SettersIndependent | rule.go:37-76 | setters of different fields commute, and the later of two writes to one field wins |
| RuleBuilder.WithLocationRFCClears | rule.go:91-124 | an unknown zone name clears a location set earlier |
| Const.MatchOnlyTime | const.go:289 | the scanner accepts exactly the strings the anchored expression matches |
| Const.MatchApplyTime | const.go:285 | trying every start position accepts exactly the strings in which the unanchored expression finds a match |
| Const.CoreScanIff | const.go:285-289 | the greedy scan of the time part agrees with its grammar: one or two digits, then either colon groups or exactly two colon groups and a fraction |
| Const.GroupsAtIff | const.go:289 | the greedy group scanner agrees with the grammar of any number of colon groups of one or two digits |
| Const.FracScanIff | const.go:289 | the fraction scanner agrees with the grammar of two colon groups, a dot and 3, 6 or 9 digits |
| Const.LeadScanIff | const.go:285 | the leading alternative ends at a position exactly when the preceding character is white space or `T`, or only white space precedes it |
| Const.TrailScanIff | const.go:285 | the trailing alternative starts at a position exactly when only white space follows it or it holds `Z`, `+` or `-` |
| Const.CoreShape | const.go:289 | a matched time starts and ends with a digit and holds only digits, colons and dots |
| Const.OnlyTimeApplyTime | const.go:285-289 | every string the anchored expression accepts is matched by the unanchored one |
| Const.OnlyTimeChars | const.go:289 | a string of only a time holds nothing but digits, colons, dots and white space |
| Const.OnlyTimeClockExample | const.go:289 | "15:04:05" is accepted |
| Const.OnlyTimeFractionExample | const.go:289 | "15:04:05.000" is accepted |
| Const.OnlyTimeSpacesExample | const.go:289 | " 3:4" followed by a tab is accepted |
| Const.OnlyTimeHourCounterExample | const.go:289 | "123" is refused |
| Const.OnlyTimeFractionCounterExample | const.go:289 | "15:04.000" is refused: a fraction needs seconds |
| Const.OnlyTimeDigitsCounterExample | const.go:289 | "15:04:05.1234" is refused: a fraction has 3, 6 or 9 digits |
| Const.OnlyTimeDateCounterExample | const.go:289 | "2023-08-15" is refused |
| Const.ApplyTimeSpaceExample | const.go:285 | "2017-01-01 15:04" contains a match |
| Const.ApplyTimeZoneExample | const.go:285 | "2021-07-20T00:59:10Z" contains a match |
| Const.ApplyTimeDateCounterExample | const.go:285 | "2023-08-15" contains no match |
| Clock.MakeTimeFields | entry.go:24-26 | `time.Date` with in-range fields builds a time whose fields read back as given |
| Clock.MakeTimeOfFields | entry.go:485-489 | `time.Date` applied to a time's own fields gives the time back |
| Clock.AddDateDays | entry.go:72-75 | in a fixed-offset zone `AddDate(0, 0, n)` is `n` × 24 hours |
| Calendar.CivilFromDays | entry.go:485-489 | the date read off a day number is a valid date whose day number is that day number |
| Calendar.DateRoundTrip | entry.go:485-489 | a valid civil date converts to a day number and back unchanged |
| Calendar.DaysFromCivilInjective | entry.go:485-489 | different valid dates have different day numbers |
| Calendar.YearLengthCivil | entry.go:325-327 | a year has 366 days exactly when it is divisible by 4 and not by 100, or by 400 |

## Left out

- New: `time.go` `New` is an alias of `With` and adds nothing.
- `Parse`, `MustParse` and the layout table: parsing through `time.Parse` is not part of this model. The process-wide `TimeFormats` table and `DefaultConfig` are parameters.
- The wall-clock wrappers (`BeginningOfMinute()` ... `EndOfYear()`, `Monday(...)`...): they read the system clock and return a `time.Time`. The operations they wrap are modelled on an explicit time.
- `SinceHour`, `SinceMinute`, `SinceSecond`: they read the system clock and return float64 values.
- Named zones with daylight-saving rules: every location has one fixed offset, and `LoadLocation` is a lookup parameter.
- Entry.AddSecond: does not model the 64-bit overflow of `time.Duration(second) * time.Second`; `int` is unbounded here.
- Entry.AddMinute: does not model the 64-bit overflow of the duration product.
- Entry.AddHour: does not model the 64-bit overflow of the duration product.
- Entry.AddDay: does not model the 64-bit overflow of the duration product.
- Format.TimeAgo: `diff.Seconds()`, `diff.Minutes()` and `diff.Hours()` go through float64. The model divides exactly and truncates toward zero. The two readings can differ only once the difference exceeds 2^53 ns, about 104 days. From about 171 days on, float64 rounding of `diff.Hours()/24` can turn k × 24 hours minus 1 ns into k whole days. For example, at 365 days minus 1 ns Go prints "1 year ago" where the model gives "12 months ago", and at 730 days minus 1 ns Go prints "2 years ago" where the model gives "1 year ago".
- Format.TimeUntil: the same float64 simplification as `TimeAgo`.
- Timex.BeginningOfMinuteFields: stated only for zones whose offset is a whole number of minutes. `Truncate` counts from the zero time in UTC, so in other zones the local seconds need not be zero.
- Timex.EndOfMinuteFields: the same whole-minute restriction.
- Weekdays: Go's `time.Weekday` is a plain `int`, so `WithWeekStartDay(7)` or a `Config` with `WeekStartDay: -1` compiles. The model's `Weekday` type admits only 0 to 6, so `RuleBuilder.WithWeekStartDay` and the `Config` of `Timex` take only those values. With -1, `BeginningOfWeek` steps back 1 to 7 days, so a Saturday goes to the previous Saturday; that behaviour is not modelled.
- Timex.With: the package variable `WeekStartDay` is taken as its declared value, Sunday. Reassigning it at run time is not modelled.
- Standalone.SetTimezone: `v.In(nil)` panics on an unknown zone. The model therefore requires a known zone.
- Standalone.AdjustTimezone: the same panic as `SetTimezone`.
- The `standalone.go` copies of `AddSecond` ... `FormatTimex` are textually identical to those of `entry.go` and are modelled once, in `Entry`.
- Entry.DayWalk: `AddDate(0, 0, 1)` is modelled as 24 hours. In a fixed-offset zone the two are equal (`Clock.AddDateDays`).
- RuleBuilder: the Go builders mutate and return the same pointer. The model returns the new value, so aliasing between callers is not modelled.
- Slices: Go's `append` may share a backing array. The model's sequences never share storage.
- The named constants of `const.go` (the `TimeRFC`, `TimeFormatRFC` and `ZoneRFC` values) are not part of this model. Of that file the model keeps `WeekStartDay`, the layout types as strings, and the two regular expressions.

## Findings

| source | as written | input that shows it | evidently intended | confidence | as-written member | corrected member |
|---|---|---|---|---|---|---|
| entry.go:373-387 (and standalone.go:370-384) | in a leap year a weekday is kept only if it is 29 February | 1-10 March 2024 in UTC: the result is empty | every Monday to Friday between `start` and `end` | not executed | Entry.GetWeekdaysInRange (Entry.GetWeekdaysInRangeMarch2024) | Entry.WeekdaysInRange (Entry.WeekdaysInRangeMarch2024) |
