/** Proleptic Gregorian calendar arithmetic on day numbers.

    Day 0 is 1970-01-01.  Internally a year is counted from 1 March, so that the
    leap day is the last day of its year, and years are grouped in 400-year eras
    of 146097 days.  The month-length table and the leap rule are proved to agree
    with this arithmetic (`MonthLengthIsGap`, `YearLengthCivil`). */
module Calendar {

  datatype Date = Date(year: int, month: int, day: int)

  /** Days from 0000-03-01 to 1970-01-01. */
  const EpochShift: int := 719468
  /** Days in one 400-year era. */
  const DaysPerEra: int := 146097

  /** Offset of the March-based year `yoe` from the start of its era;
      `YearStart(400)` is the length of the era. */
  function YearStart(yoe: int): int
    requires 0 <= yoe <= 400
  {
    365 * yoe + yoe / 4 - yoe / 100 + yoe / 400
  }

  function YearLength(yoe: int): int
    requires 0 <= yoe < 400
  {
    YearStart(yoe + 1) - YearStart(yoe)
  }

  /** Offset of month `mp` (0 = March, ..., 11 = February) within a March-based year. */
  function MonthStart(mp: int): int
    requires 0 <= mp < 12
  {
    [0, 31, 61, 92, 122, 153, 184, 214, 245, 275, 306, 337][mp]
  }

  /** Length of month `mp` of the March-based year `yoe`; only February (mp = 11)
      depends on the year. */
  function MonthLengthInYear(yoe: int, mp: int): int
    requires 0 <= yoe < 400 && 0 <= mp < 12
  {
    (if mp < 11 then MonthStart(mp + 1) else YearLength(yoe)) - MonthStart(mp)
  }

  lemma YearLengthValues(yoe: int)
    requires 0 <= yoe < 400
    ensures YearLength(yoe) == 365 || YearLength(yoe) == 366
    ensures YearLength(yoe) == 366 <==> (yoe + 1) % 4 == 0 && ((yoe + 1) % 100 != 0 || (yoe + 1) % 400 == 0)
  {
    var k := yoe + 1;
    assert k / 4 - yoe / 4 == if k % 4 == 0 then 1 else 0;
    assert k / 100 - yoe / 100 == if k % 100 == 0 then 1 else 0;
    assert k / 400 - yoe / 400 == if k % 400 == 0 then 1 else 0;
    assert k % 100 == 0 ==> k % 4 == 0;
    assert k % 400 == 0 ==> k % 100 == 0;
  }

  lemma {:induction false} YearStartMonotone(a: int, b: int)
    requires 0 <= a <= b <= 400
    ensures YearStart(a) + 365 * (b - a) <= YearStart(b)
    decreases b - a
  {
    if a < b {
      YearStartMonotone(a + 1, b);
      YearLengthValues(a);
    }
  }

  /** The year of the era that contains day `doe`: count centuries, then
      four-year cycles, then years. */
  function YearOfEra(doe: int): (yoe: int)
    requires 0 <= doe < DaysPerEra
    ensures 0 <= yoe < 400 && YearStart(yoe) <= doe < YearStart(yoe + 1)
  {
    var c := if doe / 36524 < 3 then doe / 36524 else 3;
    var q := (doe - 36524 * c) / 1461;
    var r2 := doe - 36524 * c - 1461 * q;
    var y1 := if r2 / 365 < 3 then r2 / 365 else 3;
    YearOfEraStep(c, q, y1, doe);
    100 * c + 4 * q + y1
  }

  lemma YearOfEraStep(c: int, q: int, y1: int, doe: int)
    requires 0 <= doe < DaysPerEra
    requires c == if doe / 36524 < 3 then doe / 36524 else 3
    requires q == (doe - 36524 * c) / 1461
    requires y1 == if (doe - 36524 * c - 1461 * q) / 365 < 3 then (doe - 36524 * c - 1461 * q) / 365 else 3
    ensures 0 <= 100 * c + 4 * q + y1 < 400
    ensures YearStart(100 * c + 4 * q + y1) <= doe < YearStart(100 * c + 4 * q + y1 + 1)
  {
    var yoe := 100 * c + 4 * q + y1;
    assert 0 <= q <= 24;
    assert yoe / 4 == 25 * c + q;
    assert yoe / 100 == c;
    assert YearStart(yoe) == 36524 * c + 1461 * q + 365 * y1;
    var r3 := doe - YearStart(yoe);
    assert 0 <= r3 <= 365;
    if r3 == 365 {
      assert y1 == 3;
      if q == 24 {
        assert c == 3;
        assert yoe == 399;
      } else {
        assert (yoe + 1) / 4 == 25 * c + q + 1;
        assert (yoe + 1) / 100 == c;
      }
    } else {
      YearLengthValues(yoe);
    }
  }

  /** At most one year of an era contains a given day, and that day lies inside the era. */
  lemma YearOfEraUnique(doe: int, a: int, b: int)
    requires 0 <= a < 400 && YearStart(a) <= doe < YearStart(a + 1)
    requires 0 <= b < 400 && YearStart(b) <= doe < YearStart(b + 1)
    ensures a == b
    ensures 0 <= doe < DaysPerEra
  {
    YearStartMonotone(0, a);
    YearStartMonotone(a + 1, 400);
    if a < b {
      YearStartMonotone(a + 1, b);
    } else if b < a {
      YearStartMonotone(b + 1, a);
    }
  }

  /** The month (0 = March) of a March-based year that contains day `doy` of the year. */
  function MonthOfYearDay(doy: int): (mp: int)
    requires 0 <= doy
    ensures 0 <= mp < 12 && MonthStart(mp) <= doy && (mp < 11 ==> doy < MonthStart(mp + 1))
  {
    if doy < 31 then 0
    else if doy < 61 then 1
    else if doy < 92 then 2
    else if doy < 122 then 3
    else if doy < 153 then 4
    else if doy < 184 then 5
    else if doy < 214 then 6
    else if doy < 245 then 7
    else if doy < 275 then 8
    else if doy < 306 then 9
    else if doy < 337 then 10
    else 11
  }

  /** At most one month of a March-based year contains a given day. */
  lemma MonthOfYearDayUnique(doy: int, a: int, b: int)
    requires 0 <= a < 12 && MonthStart(a) <= doy && (a < 11 ==> doy < MonthStart(a + 1))
    requires 0 <= b < 12 && MonthStart(b) <= doy && (b < 11 ==> doy < MonthStart(b + 1))
    ensures a == b
  {
    MonthStartMonotone(a, b);
    MonthStartMonotone(b, a);
  }

  lemma MonthStartMonotone(a: int, b: int)
    requires 0 <= a < 12 && 0 <= b < 12
    ensures a < b ==> MonthStart(a + 1) <= MonthStart(b)
  {
  }

  /** Day number of 1 March of (proleptic Gregorian) year `y`. */
  function MarchYearStart(y: int): int
  {
    (y / 400) * DaysPerEra + YearStart(y % 400) - EpochShift
  }

  lemma MarchYearStep(y: int)
    ensures MarchYearStart(y + 1) == MarchYearStart(y) + YearLength(y % 400)
  {
    if y % 400 == 399 {
      assert (y + 1) / 400 == y / 400 + 1;
      assert (y + 1) % 400 == 0;
    } else {
      assert (y + 1) / 400 == y / 400;
      assert (y + 1) % 400 == y % 400 + 1;
    }
  }

  /** Day number of year `y`, month `m`, day `d`.  The day is not range-checked:
      day `d` of a month is `d - 1` days after its first day, which is how the
      library's date constructor treats an overflowing day. */
  function DaysFromCivil(y: int, m: int, d: int): int
    requires 1 <= m <= 12
  {
    var yp := if m <= 2 then y - 1 else y;
    var mp := if m > 2 then m - 3 else m + 9;
    MarchYearStart(yp) + MonthStart(mp) + d - 1
  }

  /** The Gregorian leap rule. */
  predicate LeapYear(y: int)
  {
    y % 4 == 0 && (y % 100 != 0 || y % 400 == 0)
  }

  /** Days in month `m` of year `y`. */
  function MonthLength(y: int, m: int): int
    requires 1 <= m <= 12
  {
    if m == 2 then (if LeapYear(y) then 29 else 28)
    else if m == 4 || m == 6 || m == 9 || m == 11 then 30
    else 31
  }

  predicate ValidDate(dt: Date)
  {
    1 <= dt.month <= 12 && 1 <= dt.day <= MonthLength(dt.year, dt.month)
  }

  /** Days from the first of month `m` of year `y` to the first of the next month. */
  function MonthGap(y: int, m: int): int
    requires 1 <= m <= 12
  {
    if m == 12 then DaysFromCivil(y + 1, 1, 1) - DaysFromCivil(y, 12, 1)
    else DaysFromCivil(y, m + 1, 1) - DaysFromCivil(y, m, 1)
  }

  lemma MonthGapMarch(y: int, m: int)
    requires 1 <= m <= 12
    ensures var yp := if m <= 2 then y - 1 else y;
            var mp := if m > 2 then m - 3 else m + 9;
            MonthGap(y, m) == MonthLengthInYear(yp % 400, mp)
  {
    if m == 2 {
      MarchYearStep(y - 1);
    }
  }

  /** The month table and the leap rule agree with the day-number arithmetic:
      each month lasts until the first of the next. */
  lemma MonthLengthIsGap(y: int, m: int)
    requires 1 <= m <= 12
    ensures MonthLength(y, m) == MonthGap(y, m)
  {
    MonthGapMarch(y, m);
    if m == 2 {
      var yoe := (y - 1) % 400;
      YearLengthValues(yoe);
      ModEra((y - 1) / 400, yoe + 1);
    }
  }

  /** Month `m` of year `y` is month `mp` of the March-based year `yoe`. */
  lemma MonthLengthMarch(y: int, m: int)
    requires 1 <= m <= 12
    ensures var yp := if m <= 2 then y - 1 else y;
            var mp := if m > 2 then m - 3 else m + 9;
            MonthLength(y, m) == MonthLengthInYear(yp % 400, mp)
  {
    MonthGapMarch(y, m);
    MonthLengthIsGap(y, m);
  }

  /** The first of a month is no earlier than the first of any earlier month of the same year. */
  lemma {:induction false} FirstOfMonthMonotone(y: int, a: int, b: int)
    requires 1 <= a <= b <= 12
    ensures DaysFromCivil(y, a, 1) <= DaysFromCivil(y, b, 1)
    decreases b - a
  {
    if a < b {
      FirstOfMonthMonotone(y, a, b - 1);
      MonthLengthIsGap(y, b - 1);
    }
  }

  /** A Gregorian year has 366 days when it is a leap year and 365 otherwise. */
  lemma YearLengthCivil(y: int)
    ensures DaysFromCivil(y + 1, 1, 1) - DaysFromCivil(y, 1, 1) == if LeapYear(y) then 366 else 365
  {
    assert DaysFromCivil(y + 1, 1, 1) == MarchYearStart(y) + 306;
    assert DaysFromCivil(y, 1, 1) == MarchYearStart(y - 1) + 306;
    assert DaysFromCivil(y, 3, 1) == MarchYearStart(y);
    assert DaysFromCivil(y, 2, 1) == MarchYearStart(y - 1) + 337;
    MonthLengthIsGap(y, 2);
  }

  /** Divisibility by 4, 100 and 400 does not see whole eras. */
  lemma ModEra(q: int, k: int)
    ensures (400 * q + k) % 4 == k % 4
    ensures (400 * q + k) % 100 == k % 100
    ensures (400 * q + k) % 400 == k % 400
  {
    ModShift(4, 100 * q, k);
    ModShift(100, 4 * q, k);
    ModShift(400, q, k);
  }

  lemma ModShift(m: int, e: int, k: int)
    requires m == 4 || m == 100 || m == 400
    ensures (m * e + k) % m == k % m
  {
    var r := k % m;
    assert k == m * (k / m) + r;
    assert m * e + k == m * (e + k / m) + r;
    ModUnique(m, e + k / m, r);
  }

  lemma ModUnique(m: int, c: int, r: int)
    requires m == 4 || m == 100 || m == 400
    requires 0 <= r < m
    ensures (m * c + r) % m == r
  {
    if m == 4 {
      assert (4 * c + r) % 4 == r;
    } else if m == 100 {
      assert (100 * c + r) % 100 == r;
    } else {
      assert (400 * c + r) % 400 == r;
    }
  }

  /** The date of day number `z`.  The calendar repeats every 400 years, so the
      date is found in the era that starts on 0000-03-01 and moved by whole
      eras.  It is the only valid date that `DaysFromCivil` maps to `z`
      (`DaysFromCivilInjective`). */
  function CivilFromDays(z: int): (r: Date)
    ensures ValidDate(r)
    ensures DaysFromCivil(r.year, r.month, r.day) == z
    decreases if z < -EpochShift then DaysPerEra - EpochShift - z else z + EpochShift
  {
    if z < -EpochShift then
      var r := CivilFromDays(z + DaysPerEra);
      EraShift(r.year - 400, r.month, r.day);
      Date(r.year - 400, r.month, r.day)
    else if z >= DaysPerEra - EpochShift then
      var r := CivilFromDays(z - DaysPerEra);
      EraShift(r.year, r.month, r.day);
      Date(r.year + 400, r.month, r.day)
    else
      CivilOfFirstEra(z + EpochShift)
  }

  /** The date `doe` days after 0000-03-01, within the first era: the year of
      the era, then the month (0 = March) of that year. */
  function CivilOfFirstEra(doe: int): (r: Date)
    requires 0 <= doe < DaysPerEra
    ensures ValidDate(r)
    ensures DaysFromCivil(r.year, r.month, r.day) == doe - EpochShift
  {
    var yoe := YearOfEra(doe);
    var doy := doe - YearStart(yoe);
    var mp := MonthOfYearDay(doy);
    var m := if mp < 10 then mp + 3 else mp - 9;
    var y := yoe + (if m <= 2 then 1 else 0);
    CivilOfEraDayStep(0, doe, yoe, mp, m, y);
    Date(y, m, doy - MonthStart(mp) + 1)
  }

  /** Moving a date by 400 years keeps it valid and moves its day number by one era. */
  lemma EraShift(y: int, m: int, d: int)
    requires 1 <= m <= 12
    ensures MonthLength(y + 400, m) == MonthLength(y, m)
    ensures DaysFromCivil(y + 400, m, d) == DaysFromCivil(y, m, d) + DaysPerEra
  {
    ModEra(1, y);
    var yp := if m <= 2 then y - 1 else y;
    assert (yp + 400) / 400 == yp / 400 + 1 && (yp + 400) % 400 == yp % 400;
  }

  lemma CivilOfEraDayStep(era: int, doe: int, yoe: int, mp: int, m: int, y: int)
    requires 0 <= yoe < 400
    requires YearStart(yoe) <= doe < YearStart(yoe + 1)
    requires 0 <= mp < 12
    requires MonthStart(mp) <= doe - YearStart(yoe)
    requires mp < 11 ==> doe - YearStart(yoe) < MonthStart(mp + 1)
    requires m == if mp < 10 then mp + 3 else mp - 9
    requires y == 400 * era + yoe + (if m <= 2 then 1 else 0)
    ensures 1 <= m <= 12
    ensures var d := doe - YearStart(yoe) - MonthStart(mp) + 1;
            1 <= d <= MonthLength(y, m) && DaysFromCivil(y, m, d) == era * DaysPerEra + doe - EpochShift
  {
    var yp := if m <= 2 then y - 1 else y;
    assert yp == 400 * era + yoe;
    assert yp / 400 == era;
    assert yp % 400 == yoe;
    MonthLengthMarch(y, m);
  }

  /** A valid date as a day of a 400-year era. */
  lemma DateEraParts(y: int, m: int, d: int, yp: int, mp: int, era: int, yoe: int)
    requires ValidDate(Date(y, m, d))
    requires yp == (if m <= 2 then y - 1 else y) && mp == (if m > 2 then m - 3 else m + 9)
    requires era == yp / 400 && yoe == yp % 400
    ensures 0 <= yoe < 400 && 0 <= mp < 12 && 1 <= d
    ensures YearStart(yoe) <= YearStart(yoe) + MonthStart(mp) + d - 1 < YearStart(yoe + 1)
    ensures MonthStart(mp) <= MonthStart(mp) + d - 1
    ensures mp < 11 ==> MonthStart(mp) + d - 1 < MonthStart(mp + 1)
    ensures DaysFromCivil(y, m, d) + EpochShift == era * DaysPerEra + YearStart(yoe) + MonthStart(mp) + d - 1
    ensures 400 * era + yoe + (if m <= 2 then 1 else 0) == y
    ensures (if mp < 10 then mp + 3 else mp - 9) == m
  {
    MonthLengthMarch(y, m);
    YearLengthValues(yoe);
  }

  lemma EraDivMod(era: int, doe: int)
    requires 0 <= doe < DaysPerEra
    ensures (era * DaysPerEra + doe) / DaysPerEra == era
    ensures (era * DaysPerEra + doe) % DaysPerEra == doe
  {
  }

  /** Two valid dates with the same day number are the same date: the era, the
      year of the era, the month and the day are each determined in turn. */
  lemma DaysFromCivilInjective(a: Date, b: Date)
    requires ValidDate(a) && ValidDate(b)
    requires DaysFromCivil(a.year, a.month, a.day) == DaysFromCivil(b.year, b.month, b.day)
    ensures a == b
  {
    var ypa := if a.month <= 2 then a.year - 1 else a.year;
    var mpa := if a.month > 2 then a.month - 3 else a.month + 9;
    var ypb := if b.month <= 2 then b.year - 1 else b.year;
    var mpb := if b.month > 2 then b.month - 3 else b.month + 9;
    var eraA, yoeA := ypa / 400, ypa % 400;
    var eraB, yoeB := ypb / 400, ypb % 400;
    DateEraParts(a.year, a.month, a.day, ypa, mpa, eraA, yoeA);
    DateEraParts(b.year, b.month, b.day, ypb, mpb, eraB, yoeB);
    var doeA := YearStart(yoeA) + MonthStart(mpa) + a.day - 1;
    var doeB := YearStart(yoeB) + MonthStart(mpb) + b.day - 1;
    YearOfEraUnique(doeA, yoeA, yoeA);
    YearOfEraUnique(doeB, yoeB, yoeB);
    SameEraDay(eraA, doeA, eraB, doeB);
    YearOfEraUnique(doeA, yoeA, yoeB);
    MonthOfYearDayUnique(MonthStart(mpa) + a.day - 1, mpa, mpb);
  }

  /** Era and day of the era are determined by the day number. */
  lemma SameEraDay(eraA: int, doeA: int, eraB: int, doeB: int)
    requires 0 <= doeA < DaysPerEra && 0 <= doeB < DaysPerEra
    requires eraA * DaysPerEra + doeA == eraB * DaysPerEra + doeB
    ensures eraA == eraB && doeA == doeB
  {
    EraDivMod(eraA, doeA);
    EraDivMod(eraB, doeB);
  }

  lemma DaysFromCivilInjectiveAll()
    ensures forall a: Date, b: Date | ValidDate(a) && ValidDate(b) && DaysFromCivil(a.year, a.month, a.day) == DaysFromCivil(b.year, b.month, b.day) :: a == b
  {
    forall a: Date, b: Date | ValidDate(a) && ValidDate(b) && DaysFromCivil(a.year, a.month, a.day) == DaysFromCivil(b.year, b.month, b.day)
      ensures a == b
    {
      DaysFromCivilInjective(a, b);
    }
  }

  /** A valid date survives the trip to a day number and back. */
  lemma DateRoundTrip(dt: Date)
    requires ValidDate(dt)
    ensures CivilFromDays(DaysFromCivil(dt.year, dt.month, dt.day)) == dt
  {
    DaysFromCivilInjective(CivilFromDays(DaysFromCivil(dt.year, dt.month, dt.day)), dt);
  }

  /** Day of the week of day number `z`, Sunday = 0; 1970-01-01 was a Thursday. */
  function WeekdayOfDay(z: int): int
  {
    (z + 4) % 7
  }

  /** The week repeats every seven days. */
  lemma WeekdayPeriodic(z: int, n: int)
    ensures WeekdayOfDay(z + 7 * n) == WeekdayOfDay(z)
  {
    var r := (z + 4) % 7;
    assert z + 4 == 7 * ((z + 4) / 7) + r;
    assert z + 7 * n + 4 == 7 * ((z + 4) / 7 + n) + r;
  }

  /** Going back `k` days, fewer than a week, lowers the weekday by `k`,
      wrapping past Sunday. */
  lemma WeekdayBack(z: int, k: int)
    requires 0 <= k < 7
    ensures WeekdayOfDay(z - k) == if k <= WeekdayOfDay(z) then WeekdayOfDay(z) - k else WeekdayOfDay(z) - k + 7
  {
    var q, w := (z + 4) / 7, (z + 4) % 7;
    if k <= w {
      assert z - k + 4 == 7 * q + (w - k);
    } else {
      assert z - k + 4 == 7 * (q - 1) + (w - k + 7);
    }
  }
}
