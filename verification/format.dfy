/** The relative-time phrases of format.go.  Both methods read the clock; here
    they are functions of the signed difference in nanoseconds: `TimeAgo` of
    now minus the time, `TimeUntil` of the time minus now.  The whole numbers of
    seconds, minutes, hours and days the source takes from that difference
    truncate toward zero. */
module Format {
  import opened Clock

  /** Go's integer conversion of a quotient: truncation toward zero.  The
      product `r * b` is the multiple of `b` nearest to `a` on the side of zero. */
  function TruncDiv(a: int, b: int): (r: int)
    requires b > 0
    ensures 0 <= a ==> 0 <= r * b <= a < r * b + b
    ensures a < 0 ==> r * b - b < a <= r * b <= 0
  {
    if a >= 0 then
      FloorDivBounds(a, b);
      a / b
    else
      FloorDivBounds(-a, b);
      assert -((-a) / b) * b == -((-a) / b * b);
      -((-a) / b)
  }

  /** On a non-negative dividend, division rounds down to a multiple of the divisor. */
  lemma FloorDivBounds(a: int, b: int)
    requires 0 <= a && 0 < b
    ensures 0 <= a / b * b <= a < a / b * b + b
  {
    var q := a / b;
    assert a == b * q + a % b;
    assert q * b == b * q;
    assert 0 <= q;
    assert 0 <= q * b;
  }

  /** The decimal digit of a value below ten. */
  function DigitChar(d: int): char
    requires 0 <= d < 10
  {
    "0123456789"[d]
  }

  function DigitValue(c: char): int
  {
    if '0' <= c <= '9' then c as int - '0' as int else 0
  }

  /** The decimal form `%d` gives a natural number: no sign, no leading zeros. */
  function FormatInt(n: nat): (r: string)
    ensures |r| >= 1 && (|r| > 1 ==> r[0] != '0')
    ensures forall i | 0 <= i < |r| :: '0' <= r[i] <= '9'
  {
    if n < 10 then [DigitChar(n)] else FormatInt(n / 10) + [DigitChar(n % 10)]
  }

  /** Reads a string of decimal digits back as a number. */
  function ParseDigits(s: string): nat
  {
    if |s| == 0 then 0 else 10 * ParseDigits(s[..|s| - 1]) + DigitValue(s[|s| - 1])
  }

  /** The decimal form reads back as the number it came from. */
  lemma {:induction false} FormatIntRoundTrip(n: nat)
    ensures ParseDigits(FormatInt(n)) == n
  {
    if n >= 10 {
      var init := FormatInt(n / 10);
      var s := init + [DigitChar(n % 10)];
      assert s[..|s| - 1] == init;
      FormatIntRoundTrip(n / 10);
      assert ParseDigits(s) == 10 * (n / 10) + n % 10;
    }
  }

  /** Different numbers have different decimal forms. */
  lemma FormatIntInjective(a: nat, b: nat)
    requires FormatInt(a) == FormatInt(b)
    ensures a == b
  {
    FormatIntRoundTrip(a);
    FormatIntRoundTrip(b);
  }

  /** The units the phrases count in. */
  datatype Unit = Minute | Hour | Day | Week | Month | Year

  /** What a phrase says: "now", or a count of whole units. */
  datatype Bucket = JustNow | Elapsed(count: nat, unit: Unit)

  /** Nanoseconds in one unit; a month is 30 days and a year 365. */
  function UnitNanos(u: Unit): int
  {
    match u
    case Minute => NanosPerMinute
    case Hour => NanosPerHour
    case Day => NanosPerDay
    case Week => 7 * NanosPerDay
    case Month => 30 * NanosPerDay
    case Year => 365 * NanosPerDay
  }

  /** The largest unit that the difference reaches, except that weeks stop at 30
      days and months at 365. */
  function UnitFor(d: int): Unit
  {
    if d < NanosPerHour then Minute
    else if d < NanosPerDay then Hour
    else if d < 7 * NanosPerDay then Day
    else if d < 30 * NanosPerDay then Week
    else if d < 365 * NanosPerDay then Month
    else Year
  }

  /** The reference reading of a difference: under a minute is "now",
      otherwise the number of whole units of `UnitFor(d)` it spans. */
  function Classify(d: int): Bucket
  {
    if d < NanosPerMinute then JustNow
    else Elapsed(d / UnitNanos(UnitFor(d)), UnitFor(d))
  }

  /** "1 minute ago", "5 minutes ago", and so on. */
  function AgoText(b: Bucket): string
  {
    match b
    case JustNow => "just now"
    case Elapsed(n, Minute) => if n == 1 then "1 minute ago" else FormatInt(n) + " minutes ago"
    case Elapsed(n, Hour) => if n == 1 then "1 hour ago" else FormatInt(n) + " hours ago"
    case Elapsed(n, Day) => if n == 1 then "1 day ago" else FormatInt(n) + " days ago"
    case Elapsed(n, Week) => if n == 1 then "1 week ago" else FormatInt(n) + " weeks ago"
    case Elapsed(n, Month) => if n == 1 then "1 month ago" else FormatInt(n) + " months ago"
    case Elapsed(n, Year) => if n == 1 then "1 year ago" else FormatInt(n) + " years ago"
  }

  /** "in 1 minute", "in 5 minutes", and so on. */
  function UntilText(b: Bucket): string
  {
    match b
    case JustNow => "in a few seconds"
    case Elapsed(n, Minute) => if n == 1 then "in 1 minute" else "in " + FormatInt(n) + " minutes"
    case Elapsed(n, Hour) => if n == 1 then "in 1 hour" else "in " + FormatInt(n) + " hours"
    case Elapsed(n, Day) => if n == 1 then "in 1 day" else "in " + FormatInt(n) + " days"
    case Elapsed(n, Week) => if n == 1 then "in 1 week" else "in " + FormatInt(n) + " weeks"
    case Elapsed(n, Month) => if n == 1 then "in 1 month" else "in " + FormatInt(n) + " months"
    case Elapsed(n, Year) => if n == 1 then "in 1 year" else "in " + FormatInt(n) + " years"
  }

  /** The whole seconds, minutes, hours and days the source derives decide the
      same thresholds as the difference itself. */
  lemma Counts(d: int)
    ensures TruncDiv(d, NanosPerSecond) < 60 <==> d < NanosPerMinute
    ensures d >= NanosPerMinute ==>
              && TruncDiv(d, NanosPerMinute) == d / NanosPerMinute
              && TruncDiv(d, NanosPerHour) == d / NanosPerHour
              && TruncDiv(d, NanosPerDay) == d / NanosPerDay
              && d / NanosPerDay / 7 == d / (7 * NanosPerDay)
              && d / NanosPerDay / 30 == d / (30 * NanosPerDay)
              && d / NanosPerDay / 365 == d / (365 * NanosPerDay)
  {
    if d >= NanosPerMinute {
      NestedDiv(d, 7);
      NestedDiv(d, 30);
      NestedDiv(d, 365);
    }
  }

  /** Counting whole days and then whole groups of `k` days is counting whole
      groups of `k` days. */
  lemma NestedDiv(d: int, k: int)
    requires d >= 0 && (k == 7 || k == 30 || k == 365)
    ensures d / NanosPerDay / k == d / (k * NanosPerDay)
  {
    var days := d / NanosPerDay;
    var q := days / k;
    assert d == days * NanosPerDay + d % NanosPerDay;
    assert days == q * k + days % k;
    if k == 7 {
      assert d == q * (7 * NanosPerDay) + ((days % 7) * NanosPerDay + d % NanosPerDay);
    } else if k == 30 {
      assert d == q * (30 * NanosPerDay) + ((days % 30) * NanosPerDay + d % NanosPerDay);
    } else {
      assert d == q * (365 * NanosPerDay) + ((days % 365) * NanosPerDay + d % NanosPerDay);
    }
  }

  /** `Timex.TimeAgo`, with `diff` = now minus the time: the source's switch,
      first match winning, which phrases the reference reading. */
  function TimeAgo(diff: int): (r: string)
    ensures r == AgoText(Classify(diff))
  {
    var seconds := TruncDiv(diff, NanosPerSecond);
    var minutes := TruncDiv(diff, NanosPerMinute);
    var hours := TruncDiv(diff, NanosPerHour);
    var days := TruncDiv(diff, NanosPerDay);
    Counts(diff);
    if seconds < 60 then "just now"
    else if minutes < 2 then "1 minute ago"
    else if minutes < 60 then FormatInt(minutes) + " minutes ago"
    else if hours < 2 then "1 hour ago"
    else if hours < 24 then FormatInt(hours) + " hours ago"
    else if days < 2 then "1 day ago"
    else if days < 7 then FormatInt(days) + " days ago"
    else if days < 14 then "1 week ago"
    else if days < 30 then FormatInt(days / 7) + " weeks ago"
    else if days < 60 then "1 month ago"
    else if days < 365 then FormatInt(days / 30) + " months ago"
    else if days < 730 then "1 year ago"
    else FormatInt(days / 365) + " years ago"
  }

  /** `Timex.TimeUntil`, with `diff` = the time minus now: a negative difference
      is "in the past" before any threshold is looked at. */
  function TimeUntil(diff: int): (r: string)
    ensures diff < 0 ==> r == "in the past"
    ensures diff >= 0 ==> r == UntilText(Classify(diff))
  {
    if diff < 0 then "in the past"
    else
      var seconds := TruncDiv(diff, NanosPerSecond);
      var minutes := TruncDiv(diff, NanosPerMinute);
      var hours := TruncDiv(diff, NanosPerHour);
      var days := TruncDiv(diff, NanosPerDay);
      Counts(diff);
      if seconds < 60 then "in a few seconds"
      else if minutes < 2 then "in 1 minute"
      else if minutes < 60 then "in " + FormatInt(minutes) + " minutes"
      else if hours < 2 then "in 1 hour"
      else if hours < 24 then "in " + FormatInt(hours) + " hours"
      else if days < 2 then "in 1 day"
      else if days < 7 then "in " + FormatInt(days) + " days"
      else if days < 14 then "in 1 week"
      else if days < 30 then "in " + FormatInt(days / 7) + " weeks"
      else if days < 60 then "in 1 month"
      else if days < 365 then "in " + FormatInt(days / 30) + " months"
      else if days < 730 then "in 1 year"
      else "in " + FormatInt(days / 365) + " years"
  }

  /** Every difference under a minute, future ones included, is "just now". */
  lemma TimeAgoJustNow(diff: int)
    ensures TimeAgo(diff) == "just now" <==> diff < NanosPerMinute
  {
    if diff >= NanosPerMinute {
      var b := Classify(diff);
      assert AgoText(b)[|AgoText(b)| - 1] == 'o';
    }
  }

  /** The counts stay inside their unit: a phrase never says 60 minutes, 24
      hours, 7 days, 5 weeks or 13 months. */
  lemma ClassifyCountRange(d: int)
    requires Classify(d).Elapsed?
    ensures var b := Classify(d);
            && b.count >= 1
            && (b.unit == Minute ==> b.count <= 59)
            && (b.unit == Hour ==> b.count <= 23)
            && (b.unit == Day ==> b.count <= 6)
            && (b.unit == Week ==> b.count <= 4)
            && (b.unit == Month ==> b.count <= 12)
  {
  }

  function UnitRank(u: Unit): int
  {
    match u
    case Minute => 1
    case Hour => 2
    case Day => 3
    case Week => 4
    case Month => 5
    case Year => 6
  }

  /** Order of buckets: by unit, then by count. */
  predicate BucketLe(a: Bucket, b: Bucket)
  {
    match (a, b)
    case (JustNow, _) => true
    case (Elapsed(_, _), JustNow) => false
    case (Elapsed(m, u), Elapsed(n, v)) => UnitRank(u) < UnitRank(v) || (u == v && m <= n)
  }

  /** A larger difference never reads as an earlier bucket. */
  lemma ClassifyMonotone(d1: int, d2: int)
    requires d1 <= d2
    ensures BucketLe(Classify(d1), Classify(d2))
  {
    if d1 >= NanosPerMinute && UnitFor(d1) == UnitFor(d2) {
      DivMonotone(d1, d2, UnitFor(d1));
    }
  }

  lemma DivMonotone(a: int, b: int, u: Unit)
    requires 0 <= a <= b
    ensures a / UnitNanos(u) <= b / UnitNanos(u)
  {
    match u
    case Minute => assert a / NanosPerMinute <= b / NanosPerMinute;
    case Hour => assert a / NanosPerHour <= b / NanosPerHour;
    case Day => assert a / NanosPerDay <= b / NanosPerDay;
    case Week => assert a / (7 * NanosPerDay) <= b / (7 * NanosPerDay);
    case Month => assert a / (30 * NanosPerDay) <= b / (30 * NanosPerDay);
    case Year => assert a / (365 * NanosPerDay) <= b / (365 * NanosPerDay);
  }

  /** For a difference that is not negative both methods choose the same
      bucket; only the wording differs. */
  lemma SameBucket(diff: int)
    requires diff >= 0
    ensures TimeAgo(diff) == AgoText(Classify(diff)) && TimeUntil(diff) == UntilText(Classify(diff))
  {
  }

  /** The differences format.go's tests use, read back through the reference. */
  lemma TimeAgoExamples()
    ensures TimeAgo(0) == "just now"
    ensures TimeAgo(5 * NanosPerMinute) == "5 minutes ago"
    ensures TimeAgo(NanosPerHour) == "1 hour ago"
    ensures TimeAgo(48 * NanosPerHour) == "2 days ago"
    ensures TimeAgo(30 * NanosPerDay) == "1 month ago"
    ensures TimeAgo(365 * NanosPerDay) == "1 year ago"
  {
    assert Classify(5 * NanosPerMinute) == Elapsed(5, Minute);
    assert Classify(NanosPerHour) == Elapsed(1, Hour);
    assert Classify(48 * NanosPerHour) == Elapsed(2, Day);
    assert Classify(30 * NanosPerDay) == Elapsed(1, Month);
    assert Classify(365 * NanosPerDay) == Elapsed(1, Year);
    assert FormatInt(5) == "5" && FormatInt(2) == "2";
  }

  lemma TimeUntilExamples()
    ensures TimeUntil(-5 * NanosPerMinute) == "in the past"
    ensures TimeUntil(5 * NanosPerSecond) == "in a few seconds"
    ensures TimeUntil(5 * NanosPerMinute + 2 * NanosPerSecond) == "in 5 minutes"
    ensures TimeUntil(NanosPerHour + 2 * NanosPerSecond) == "in 1 hour"
    ensures TimeUntil(48 * NanosPerHour + 2 * NanosPerSecond) == "in 2 days"
  {
    assert Classify(5 * NanosPerMinute + 2 * NanosPerSecond) == Elapsed(5, Minute);
    assert Classify(NanosPerHour + 2 * NanosPerSecond) == Elapsed(1, Hour);
    assert Classify(48 * NanosPerHour + 2 * NanosPerSecond) == Elapsed(2, Day);
    assert FormatInt(5) == "5" && FormatInt(2) == "2";
  }
}
