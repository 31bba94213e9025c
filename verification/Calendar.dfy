/**
  The Julian date arithmetic of time_str.c. Floating-point values are modelled as exact
  reals; the integer conversions, the truncating divisions and the casts to short and to
  unsigned 32 bits are written out.
*/
module Calendar {

  datatype Date = Date(year: int, month: int, day: int)

  /** A time stamp; the fields of the C structure, all unsigned 32-bit */
  datatype Stamp = Stamp(date: Date, hour: int, minute: int, second: int, microsecond: int)

  const U32 := 0x1_0000_0000

  // ----- the calendar itself: Julian up to 1582-10-04, Gregorian from 1582-10-15 -----

  predicate IsLeap(year: int) {
    year % 4 == 0 && (year <= 1582 || year % 100 != 0 || year % 400 == 0)
  }

  function DaysIn(year: int, month: int): int {
    if month == 2 then (if IsLeap(year) then 29 else 28)
    else if month == 4 || month == 6 || month == 9 || month == 11 then 30
    else 31
  }

  predicate Before(a: Date, b: Date) {
    || a.year < b.year
    || (a.year == b.year && a.month < b.month)
    || (a.year == b.year && a.month == b.month && a.day < b.day)
  }

  const LAST_JULIAN := Date(1582, 10, 4)
  const FIRST_GREGORIAN := Date(1582, 10, 15)

  predicate IsDate(d: Date) {
    && 0 <= d.year < U32
    && 1 <= d.month <= 12
    && 1 <= d.day <= DaysIn(d.year, d.month)
    && !(Before(LAST_JULIAN, d) && Before(d, FIRST_GREGORIAN))
  }

  predicate IsGregorian(d: Date) {
    IsDate(d) && !Before(d, FIRST_GREGORIAN)
  }

  function NextDay(d: Date): Date {
    if d == LAST_JULIAN then FIRST_GREGORIAN
    else if d.day < DaysIn(d.year, d.month) then d.(day := d.day + 1)
    else if d.month < 12 then Date(d.year, d.month + 1, 1)
    else Date(d.year + 1, 1, 1)
  }

  // ----- C arithmetic -----

  /** Conversion of a floating-point value to an integer type: truncation toward zero */
  function Trunc(x: real): int {
    if x >= 0.0 then x.Floor else -((-x).Floor)
  }

  /** Integer division of C: truncation toward zero */
  function Quot(a: int, b: int): int
    requires b > 0
  {
    if a >= 0 then a / b else -((-a) / b)
  }

  function ToShort(x: int): int {
    (x + 0x8000) % 0x1_0000 - 0x8000
  }

  function ToU32(x: int): int {
    x % U32
  }

  /** fmodl(x, 1.0) */
  function FracPart(x: real): real {
    x - Trunc(x) as real
  }

  // ----- date to Julian date -----

  /** The integer part of the Julian date plus one half: its day number, from noon to noon shifted to midnight */
  function DayNumber(d: Date): int {
    var m := if d.month <= 2 then d.month + 12 else d.month;
    var y := if d.month <= 2 then d.year - 1 else d.year;
    var b := if 10 * (10000 * d.year + 100 * d.month + d.day) <= 158210041
             then -2 + Quot(y + 4716, 4) - 1179
             else Quot(y, 400) - Quot(y, 100) + Quot(y, 4);
    365 * y - 679004 + b + Quot(306001 * (m + 1), 10000) + d.day + 2400001
  }

  function DayFraction(t: Stamp): real {
    var millisecond := Quot(t.microsecond, 1000) as real;
    (t.hour as real + t.minute as real / 60.0 + t.second as real / 3600.0 + millisecond / 3600.0 / 1000.0) / 24.0
  }

  function JulianDate(t: Stamp): real {
    DayNumber(t.date) as real + DayFraction(t) - 0.5
  }

  function TimeInterval(t1: Stamp, t2: Stamp): int {
    Trunc((JulianDate(t2) - JulianDate(t1)) * 1000.0 * 60.0 * 60.0 * 24.0)
  }

  // ----- Julian date to date -----

  /** Year, month and day from the century, the year and the day left over, in the casts of the source */
  function DateFrom(n: int, m: int, k: int): Date {
    var month := ToU32(ToShort(Quot(80 * k, 2447)));
    var late := Quot(month, 11);
    Date(ToU32(ToShort(100 * (n - 49) + m + late)), ToU32(ToShort(month + 2 - 12 * late)),
         ToU32(ToShort(k - Quot(2447 * month, 80))))
  }

  /** What FromJulianDate makes of a day number */
  function DateOfDay(jd: int): Date {
    var k0 := jd + 68569;
    var n := Quot(4 * k0, 146097);
    var k1 := k0 - Quot(146097 * n + 3, 4);
    var m := Quot(4000 * (k1 + 1), 1461001);
    DateFrom(n, m, k1 - Quot(1461 * m, 4) + 31)
  }

  /** The clock of a day that has come to this fraction */
  function WithClock(date: Date, djd: real): Stamp {
    Stamp(date,
          (FracPart(djd) * 24.0).Floor,
          (FracPart(djd * 24.0) * 60.0).Floor,
          (FracPart(djd * 24.0 * 60.0) * 60.0).Floor,
          (FracPart(djd * 24.0 * 60.0 * 60.0) * 1000000.0).Floor)
  }

  /** What FromJulianDate returns */
  function StampOf(tjd: real): Stamp {
    WithClock(DateOfDay(Trunc(tjd + 0.5)), tjd + 0.5)
  }

  /** No negative value is converted to an unsigned field of the clock, which C leaves undefined */
  predicate ClockIsDefined(tjd: real) {
    var t := WithClock(Date(1900, 1, 1), tjd + 0.5);
    t.hour >= 0 && t.minute >= 0 && t.second >= 0 && t.microsecond >= 0
  }

  lemma FracPartSign(x: real)
    ensures x >= 0.0 ==> FracPart(x) >= 0.0
    ensures x < 0.0 ==> FracPart(x) <= 0.0
    ensures FracPart(x) == 0.0 <==> x.Floor as real == x
  {
    assert x < 0.0 ==> (-x).Floor as real <= -x;
    if x < 0.0 && x.Floor as real == x {
      assert (-x).Floor == -x.Floor;
    }
  }

  lemma FracPartOfWhole(n: int, x: real)
    requires x == n as real
    ensures FracPart(x) == 0.0
  {
    FracPartSign(x);
  }

  /** That is so from the beginning of day 0 on, and before it at the beginning of each day only */
  lemma ClockIsDefinedExactly(tjd: real)
    ensures ClockIsDefined(tjd) <==> tjd + 0.5 >= 0.0 || (tjd + 0.5).Floor as real == tjd + 0.5
  {
    var djd := tjd + 0.5;
    FracPartSign(djd);
    if djd >= 0.0 {
      FracPartSign(djd * 24.0);
      FracPartSign(djd * 24.0 * 60.0);
      FracPartSign(djd * 24.0 * 60.0 * 60.0);
    } else if djd.Floor as real == djd {
      FracPartOfWhole(djd.Floor * 24, djd * 24.0);
      FracPartOfWhole(djd.Floor * 24 * 60, djd * 24.0 * 60.0);
      FracPartOfWhole(djd.Floor * 24 * 60 * 60, djd * 24.0 * 60.0 * 60.0);
    } else {
      assert FracPart(djd) < 0.0;
    }
  }

  /**
    time_str_from_JD. The stamp it returns is the one that has this Julian date, if there is one
    and its date survives.
  */
  method FromJulianDate(tjd: real) returns (time: Stamp)
    requires ClockIsDefined(tjd)
    ensures time == StampOf(tjd)
    ensures forall t :: IsStamp(t) && JulianDate(t) == tjd ==>
              (time == t.(microsecond := t.microsecond / 1000 * 1000) <==> Survives(t.date))
  {
    time := Stamp(Date(1900, 1, 1), 0, 0, 0, 0);
    var djd := tjd + 0.5;
    var jd := Trunc(djd);

    time := time.(hour := (FracPart(djd) * 24.0).Floor);
    time := time.(minute := (FracPart(djd * 24.0) * 60.0).Floor);
    time := time.(second := (FracPart(djd * 24.0 * 60.0) * 60.0).Floor);
    time := time.(microsecond := (FracPart(djd * 24.0 * 60.0 * 60.0) * 1000000.0).Floor);

    var date := SplitDay(jd);
    time := time.(date := date);
    assert time == StampOf(tjd);
    ComesBackExactly(tjd);
  }

  lemma ComesBackExactly(tjd: real)
    ensures forall t :: IsStamp(t) && JulianDate(t) == tjd ==>
              (StampOf(tjd) == t.(microsecond := t.microsecond / 1000 * 1000) <==> Survives(t.date))
  {
    forall t | IsStamp(t) && JulianDate(t) == tjd
      ensures StampOf(tjd) == t.(microsecond := t.microsecond / 1000 * 1000) <==> Survives(t.date)
    {
      StampRoundTripExactly(t);
    }
  }

  /**
    The second half of time_str_from_JD: k is reused for one remainder after another. Days from
    1582-10-15 on come out as the date with their number exactly up to the end of 32767, and
    again in the last 32768 years before 2^32.
  */
  method SplitDay(jd: int) returns (date: Date)
    ensures date == DateOfDay(jd)
    ensures jd >= 2299161 ==> (IsGregorian(date) && DayNumber(date) == jd
            <==> jd < FIRST_LOST_DAY || FIRST_FOUND_DAY <= jd < END_DAY)
  {
    if jd >= 2299161 {
      DayRoundTripExactly(jd);
    }
    var k := jd + 68569;
    var n := Quot(4 * k, 146097);

    k := k - Quot(146097 * n + 3, 4);
    var m := Quot(4000 * (k + 1), 1461001);
    k := k - Quot(1461 * m, 4) + 31;

    date := FillDate(n, m, k);
  }

  method FillDate(n: int, m: int, k0: int) returns (date: Date)
    ensures date == DateFrom(n, m, k0)
  {
    date := Date(1900, 1, 1);
    var k := k0;
    date := date.(month := ToU32(ToShort(Quot(80 * k, 2447))));
    date := date.(day := ToU32(ToShort(k - Quot(2447 * date.month, 80))));
    k := Quot(date.month, 11);

    date := date.(month := ToU32(ToShort(date.month + 2 - 12 * k)));
    date := date.(year := ToU32(ToShort(100 * (n - 49) + m + k)));
  }

  // ----- the day as century, year of the century and day of the year, all starting in March -----

  predicate IsMarchDay(c: int, y: int, doy: int) {
    && 0 <= y <= 99
    && 0 <= doy <= 365
    && (doy == 365 ==> y % 4 == 3 && (y == 99 ==> c % 4 == 0))
  }

  function MarchDay(c: int, y: int, doy: int): int {
    (146097 * c + 3) / 4 + 1461 * y / 4 + doy - 68569
  }

  /** Month and day of a day of the year that starts on March 1 */
  function MonthOf(doy: int): int {
    80 * (doy + 31) / 2447
  }

  function CivilDate(c: int, y: int, doy: int): Date {
    var month := MonthOf(doy);
    var late := month / 11;
    Date(100 * (c - 49) + y + late, month + 2 - 12 * late, doy + 31 - 2447 * month / 80)
  }

  /** Every day number has one such form ... */
  lemma MarchDayOf(jd: int) returns (c: int, y: int, doy: int)
    requires jd >= 0
    ensures c >= 0 && IsMarchDay(c, y, doy) && jd == MarchDay(c, y, doy)
    ensures c == 4 * (jd + 68569) / 146097
    ensures y == 4000 * (jd + 68569 - (146097 * c + 3) / 4 + 1) / 1461001
  {
    var k := jd + 68569;
    c := 4 * k / 146097;
    var q, r := c / 4, c % 4;
    assert (146097 * c + 3) / 4 == 146097 * q + (146097 * r + 3) / 4;
    var doc := k - (146097 * c + 3) / 4;
    assert 0 <= doc <= 36524 && (doc == 36524 ==> r == 0);
    y := 4000 * (doc + 1) / 1461001;
    var p, s := y / 4, y % 4;
    assert 1461 * y / 4 == 1461 * p + 365 * s;
    doy := doc - 1461 * y / 4;
  }

  lemma MarchDayDivisions(c: int, y: int, doy: int)
    requires IsMarchDay(c, y, doy) && MarchDay(c, y, doy) >= 0
    ensures var k := MarchDay(c, y, doy) + 68569;
            c >= 0 && c == 4 * k / 146097 && y == 4000 * (k - (146097 * c + 3) / 4 + 1) / 1461001
  {
    var c', y', doy' := MarchDayOf(MarchDay(c, y, doy));
    MarchDayInjective(c, y, doy, c', y', doy');
  }

  /** ... which the divisions of DateOfDay compute */
  lemma DateOfMarchDay(c: int, y: int, doy: int)
    requires IsMarchDay(c, y, doy) && MarchDay(c, y, doy) >= 0
    ensures var d := CivilDate(c, y, doy);
            DateOfDay(MarchDay(c, y, doy)) == Date(ToU32(ToShort(d.year)), d.month, d.day)
  {
    MarchDayDivisions(c, y, doy);
    DateOfDayInSteps(MarchDay(c, y, doy), c, y, doy);
    DateFromMarchDay(c, y, doy);
  }

  lemma DateOfDayInSteps(jd: int, c: int, y: int, doy: int)
    requires jd >= 0 && c >= 0 && 0 <= y <= 99 && 0 <= doy <= 365
    requires c == 4 * (jd + 68569) / 146097
    requires y == 4000 * (jd + 68569 - (146097 * c + 3) / 4 + 1) / 1461001
    requires jd == MarchDay(c, y, doy)
    ensures DateOfDay(jd) == DateFrom(c, y, doy + 31)
  {
    CenturyDays(c);
    YearDays(y);
  }

  lemma DateFromMarchDay(c: int, y: int, doy: int)
    requires 0 <= doy <= 365
    ensures var d := CivilDate(c, y, doy);
            DateFrom(c, y, doy + 31) == Date(ToU32(ToShort(d.year)), d.month, d.day)
  {
    MonthAndDay(doy);
    SmallCasts(MonthOf(doy));
  }

  lemma SmallCasts(x: int)
    requires 0 <= x < 0x8000
    ensures ToShort(x) == x && ToU32(x) == x
  {
  }

  lemma MonthAndDay(doy: int)
    requires 0 <= doy <= 365
    ensures var month := MonthOf(doy); var late := month / 11; var day := doy + 31 - 2447 * month / 80;
            && 1 <= month <= 12 && 1 <= day <= 31
            && ToShort(Quot(80 * (doy + 31), 2447)) == month
            && Quot(2447 * month, 80) == 2447 * month / 80 && Quot(month, 11) == late
            && ToU32(ToShort(month + 2 - 12 * late)) == month + 2 - 12 * late
            && ToU32(ToShort(day)) == day
  {
    var month := MonthOf(doy);
    var late := month / 11;
    var day := doy + 31 - 2447 * month / 80;
    assert 1 <= month <= 12;
    assert 1 <= day <= 31;
    SmallCasts(month);
    SmallCasts(month + 2 - 12 * late);
    SmallCasts(day);
  }

  lemma YearDays(y: int)
    requires 0 <= y <= 99
    ensures 1461 * y / 4 == 365 * y + y / 4
  {
  }

  lemma CenturyDays(c: int)
    ensures (146097 * c + 3) / 4 == 36524 * c + (c + 3) / 4
  {
  }

  lemma MarchDayInjective(c: int, y: int, doy: int, c': int, y': int, doy': int)
    requires IsMarchDay(c, y, doy) && IsMarchDay(c', y', doy')
    requires MarchDay(c, y, doy) == MarchDay(c', y', doy')
    ensures c == c' && y == y' && doy == doy'
  {
    YearDays(y);
    YearDays(y');
    CenturyDays(c);
    CenturyDays(c');
    SameCentury(c, y, doy, c', y', doy');
  }

  lemma SameCentury(c: int, y: int, doy: int, c': int, y': int, doy': int)
    requires IsMarchDay(c, y, doy) && IsMarchDay(c', y', doy')
    requires 36524 * c + (c + 3) / 4 + 365 * y + y / 4 + doy == 36524 * c' + (c' + 3) / 4 + 365 * y' + y' / 4 + doy'
    ensures c == c'
  {
    assert 0 <= 365 * y + y / 4 + doy <= 36524 && (365 * y + y / 4 + doy == 36524 ==> c % 4 == 0);
    assert 0 <= 365 * y' + y' / 4 + doy' <= 36524 && (365 * y' + y' / 4 + doy' == 36524 ==> c' % 4 == 0);
  }

  // ----- the forward formula in the same form -----

  /** Year and month counted from March, as DayNumber does for January and February */
  function MarchYear(d: Date): int {
    if d.month <= 2 then d.year - 1 else d.year
  }

  function MarchDoy(d: Date): int {
    var m := if d.month <= 2 then d.month + 12 else d.month;
    306001 * (m + 1) / 10000 - 122 + d.day - 1
  }

  /** Days before the March year y by the Gregorian leap rule */
  function LeapDays(y: int): int {
    y / 4 - y / 100 + y / 400
  }

  /** The Gregorian calendar extended to every year */
  predicate IsProleptic(d: Date) {
    && 1 <= d.month <= 12
    && 1 <= d.day
    && (d.month != 2 ==> d.day <= DaysIn(d.year, d.month))
    && (d.month == 2 ==> d.day <= if IsGregorianLeap(d.year) then 29 else 28)
  }

  function GregorianNumber(d: Date): int {
    365 * MarchYear(d) + LeapDays(MarchYear(d)) + MarchDoy(d) + 1721120
  }

  /** Days by which the Julian branch of DayNumber runs ahead of the Gregorian count */
  function JulianLag(y: int): int {
    y / 100 - y / 400 - 2
  }

  lemma MonthOffsets(d: Date)
    requires 1 <= d.month <= 12
    ensures var m := if d.month <= 2 then d.month + 12 else d.month;
            MarchDoy(d) - d.day + 1 == [0, 31, 61, 92, 122, 153, 184, 214, 245, 275, 306, 337][m - 3]
            && Quot(306001 * (m + 1), 10000) == MarchDoy(d) - d.day + 123
  {
    var m := if d.month <= 2 then d.month + 12 else d.month;
    assert 3 <= m <= 14;
  }

  lemma DayNumberByEra(d: Date)
    requires IsDate(d)
    ensures IsGregorian(d) ==> DayNumber(d) == GregorianNumber(d)
    ensures !IsGregorian(d) ==> DayNumber(d) == GregorianNumber(d) + JulianLag(MarchYear(d))
  {
    MonthOffsets(d);
    var y := MarchYear(d);
    if IsGregorian(d) {
      assert Quot(y, 400) == y / 400 && Quot(y, 100) == y / 100 && Quot(y, 4) == y / 4;
    } else {
      assert Quot(y + 4716, 4) == y / 4 + 1179;
    }
  }

  lemma LeapMarchYears(y: int)
    ensures var c, r := y / 100 + 49, y % 100;
            ((y + 1) % 4 == 0 <==> r % 4 == 3)
            && ((y + 1) % 100 == 0 <==> r == 99)
            && ((y + 1) % 400 == 0 <==> r == 99 && c % 4 == 0)
            && 100 * (c - 49) + r == y
            && LeapDays(y) == 24 * (c - 49) + r / 4 + (c - 49) / 4
  {
    LeapDaysInCentury(y / 100, y % 100);
  }

  lemma LeapDaysInCentury(a: int, r: int)
    requires 0 <= r < 100
    ensures LeapDays(100 * a + r) == 24 * a + r / 4 + a / 4
    ensures (100 * a + r + 1) % 4 == 0 <==> r % 4 == 3
    ensures (100 * a + r + 1) % 100 == 0 <==> r == 99
    ensures (100 * a + r + 1) % 400 == 0 <==> r == 99 && (a + 1) % 4 == 0
  {
    assert (100 * a + r) / 4 == 25 * a + r / 4;
    assert (100 * a + r) / 100 == a;
    assert (100 * a + r) / 400 == a / 4 by {
      var q, b := a / 4, a % 4;
      assert 100 * a + r == 400 * q + (100 * b + r);
    }
  }

  /** A date of the Gregorian rule is the civil form of its March day */
  lemma ProlepticForm(d: Date) returns (c: int, y: int, doy: int)
    requires IsProleptic(d)
    ensures IsMarchDay(c, y, doy) && MarchDay(c, y, doy) == GregorianNumber(d) && CivilDate(c, y, doy) == d
  {
    var my := MarchYear(d);
    c, y, doy := my / 100 + 49, my % 100, MarchDoy(d);
    LeapMarchYears(my);
    MonthOffsets(d);
    YearDays(y);
    CenturyDays(c);
    MonthOfDate(d);
    assert d.month == 2 ==> my + 1 == d.year;
  }

  lemma MonthOfDate(d: Date)
    requires IsProleptic(d)
    ensures var month := MonthOf(MarchDoy(d)); var late := month / 11;
            month + 2 - 12 * late == d.month
            && MarchDoy(d) + 31 - 2447 * month / 80 == d.day
            && MarchYear(d) + late == d.year
            && 0 <= MarchDoy(d) <= 365 && (MarchDoy(d) == 365 ==> d.month == 2 && d.day == 29)
  {
    var doy, month := MarchDoy(d), if d.month <= 2 then d.month + 10 else d.month - 2;
    MonthOffsets(d);
    assert MARCH_STARTS[month - 1] <= doy < MARCH_STARTS[month] && doy == MARCH_STARTS[month - 1] + d.day - 1;
    MonthFromStarts(doy, month);
  }

  lemma MonthFromStarts(doy: int, month: int)
    requires 1 <= month <= 12 && MARCH_STARTS[month - 1] <= doy < MARCH_STARTS[month]
    ensures MonthOf(doy) == month && 2447 * month / 80 == MARCH_STARTS[month - 1] + 30
            && month / 11 == if month <= 10 then 0 else 1
  {
    StartBounds(month);
    assert 2447 * month <= 80 * (doy + 31) < 2447 * (month + 1);
  }

  lemma StartBounds(month: int)
    requires 1 <= month <= 12
    ensures 2447 * month <= 80 * (MARCH_STARTS[month - 1] + 31) && 80 * (MARCH_STARTS[month] + 30) < 2447 * (month + 1)
    ensures 2447 * month / 80 == MARCH_STARTS[month - 1] + 30 && month / 11 == if month <= 10 then 0 else 1
  {
  }

  /** Days of each month, February at its longest */
  function LongestMonth(month: int): int {
    if month == 2 then 29 else if month == 4 || month == 6 || month == 9 || month == 11 then 30 else 31
  }

  /** First day of each month of a year that starts on March 1 */
  const MARCH_STARTS := [0, 31, 61, 92, 122, 153, 184, 214, 245, 275, 306, 337, 366]

  lemma MonthBounds(doy: int)
    requires 0 <= doy <= 365
    ensures var month := MonthOf(doy);
            && 1 <= month <= 12
            && MARCH_STARTS[month - 1] <= doy < MARCH_STARTS[month]
            && 2447 * month / 80 == MARCH_STARTS[month - 1] + 30
  {
    var month := MonthOf(doy);
    assert 1 <= month <= 12;
    var starts := MARCH_STARTS;
    assert 2447 * month / 80 == starts[month - 1] + 30;
    assert 80 * (doy + 31) < 2447 * (month + 1);
  }

  lemma CivilMonth(doy: int, year: int)
    requires 0 <= doy <= 365
    ensures var month := MonthOf(doy);
            var d := Date(year, month + 2 - 12 * (month / 11), doy + 31 - 2447 * month / 80);
            && 1 <= d.month <= 12 && 1 <= d.day <= LongestMonth(d.month)
            && (d.month == 2 && d.day == 29 <==> doy == 365)
            && MarchDoy(d) == doy
            && (d.month <= 2 <==> month / 11 == 1) && 0 <= month / 11 <= 1
  {
    var month := MonthOf(doy);
    MonthBounds(doy);
    var d := Date(year, month + 2 - 12 * (month / 11), doy + 31 - 2447 * month / 80);
    assert month / 11 == if month <= 10 then 0 else 1;
    MonthOffsets(d);
  }

  /** ... and the civil form of a March day is a date of the Gregorian rule */
  lemma CivilDateIsProleptic(c: int, y: int, doy: int)
    requires IsMarchDay(c, y, doy)
    ensures var d := CivilDate(c, y, doy); IsProleptic(d) && GregorianNumber(d) == MarchDay(c, y, doy)
  {
    var d := CivilDate(c, y, doy);
    CivilMonth(doy, d.year);
    assert MarchYear(d) == 100 * (c - 49) + y;
    CivilLeap(c, y);
    CivilNumber(c, y, doy);
  }

  lemma CivilLeap(c: int, y: int)
    requires 0 <= y <= 99
    ensures IsGregorianLeap(100 * (c - 49) + y + 1) <==> y % 4 == 3 && (y == 99 ==> c % 4 == 0)
  {
    var z := 100 * (c - 49) + y + 1;
    assert z % 4 == (y + 1) % 4 by {
      DivModUnique(z, 4, 25 * (c - 49) + (y + 1) / 4, (y + 1) % 4);
    }
    if y < 99 {
      DivModUnique(z, 100, c - 49, y + 1);
    } else {
      DivModUnique(z, 100, c - 48, 0);
      DivModUnique(z, 400, (c - 48) / 4, 100 * ((c - 48) % 4));
    }
  }

  lemma CivilNumber(c: int, y: int, doy: int)
    requires 0 <= y <= 99
    ensures MarchDay(c, y, doy) == 365 * (100 * (c - 49) + y) + LeapDays(100 * (c - 49) + y) + doy + 1721120
  {
    LeapDaysInCentury(c - 49, y);
    YearDays(y);
    CenturyDays(c);
  }

  // ----- main results on days -----

  /** The year survives the cast to short and its storage in an unsigned field */
  predicate YearSurvives(year: int) {
    year < 0x8000 || year >= U32 - 0x8000
  }

  /** The Julian dates that name the same day as in the Gregorian calendar */
  predicate CalendarsAgree(d: Date) {
    !Before(d, Date(200, 3, 1)) && !Before(Date(300, 2, 28), d)
  }

  lemma GregorianIsProleptic(d: Date)
    requires IsGregorian(d)
    ensures IsProleptic(d)
  {
  }

  lemma AgreeingIsProleptic(d: Date)
    requires IsDate(d) && !IsGregorian(d)
    ensures CalendarsAgree(d) <==> IsProleptic(d) && JulianLag(MarchYear(d)) == 0
  {
    var y := MarchYear(d);
    assert JulianLag(y) == 0 <==> 200 <= y <= 299;
  }

  lemma GregorianNumbersAreDays(d: Date)
    requires IsDate(d)
    ensures DayNumber(d) >= 1721058
    ensures !IsGregorian(d) ==> DayNumber(d) <= 2299160
    ensures IsGregorian(d) ==> DayNumber(d) >= 2299161
  {
    DayNumberByEra(d);
    MonthOffsets(d);
    var y := MarchYear(d);
    LeapMarchYears(y);
    if IsGregorian(d) && d.year > 1582 {
      assert y >= 1582;
    }
  }

  /** Dates of the Gregorian rule with the same number are the same */
  lemma GregorianNumberInjective(a: Date, b: Date)
    requires IsProleptic(a) && IsProleptic(b) && GregorianNumber(a) == GregorianNumber(b)
    ensures a == b
  {
    var c, y, doy := ProlepticForm(a);
    var c', y', doy' := ProlepticForm(b);
    MarchDayInjective(c, y, doy, c', y', doy');
  }

  /** What DateOfDay returns, up to the casts of the year: the Gregorian-rule date with that number */
  lemma DateOfDayIsGregorian(jd: int) returns (e: Date)
    requires jd >= 0
    ensures IsProleptic(e) && GregorianNumber(e) == jd
    ensures DateOfDay(jd) == Date(ToU32(ToShort(e.year)), e.month, e.day)
    ensures jd <= 2299160 ==> -4900 <= e.year <= 1600
  {
    var c, y, doy := MarchDayOf(jd);
    DateOfMarchDay(c, y, doy);
    CivilDateIsProleptic(c, y, doy);
    e := CivilDate(c, y, doy);
    CivilMonth(doy, e.year);
    CenturyDays(c);
  }

  lemma CastKeepsYear(year: int)
    requires 0 <= year < U32
    ensures ToU32(ToShort(year)) == year <==> YearSurvives(year)
  {
  }

  lemma SmallYearCast(year: int)
    requires -4900 <= year <= 1600
    ensures ToU32(ToShort(year)) == if year >= 0 then year else year + U32
  {
  }

  /** What it takes for a date to come back */
  predicate Survives(d: Date) {
    if IsGregorian(d) then YearSurvives(d.year) else CalendarsAgree(d)
  }

  /**
    Going from a calendar date to its day number and back gives the date again exactly when
    the date is Gregorian or lies in the one century in which both calendars agree, and its
    year survives the cast.
  */
  lemma RoundTripExactly(d: Date)
    requires IsDate(d)
    ensures DateOfDay(DayNumber(d)) == d
            <==> Survives(d)
  {
    GregorianNumbersAreDays(d);
    DayNumberByEra(d);
    var e := DateOfDayIsGregorian(DayNumber(d));
    if IsGregorian(d) {
      GregorianIsProleptic(d);
      GregorianNumberInjective(d, e);
      CastKeepsYear(d.year);
    } else {
      AgreeingIsProleptic(d);
      SmallYearCast(e.year);
      if CalendarsAgree(d) {
        GregorianNumberInjective(d, e);
      }
    }
  }

  /** A Julian date that comes back as another one: Christmas of the year 1000 */
  lemma RoundTripFails()
    ensures var d := Date(1000, 12, 25); IsDate(d) && DateOfDay(DayNumber(d)) != d
  {
    RoundTripExactly(Date(1000, 12, 25));
  }

  const FIRST_LOST_DAY := 13689326       // 32768-01-01, whose year no longer fits in a short
  const FIRST_FOUND_DAY := 1568694345403 // New Year of the first year that a short, made unsigned, yields again
  const END_DAY := 1568706313670         // New Year 2^32

  lemma FirstLostDayIsNewYear()
    ensures DayNumber(Date(0x8000, 1, 1)) == GregorianNumber(Date(0x8000, 1, 1)) == FIRST_LOST_DAY
    ensures DayNumber(Date(U32 - 0x8000, 1, 1)) == GregorianNumber(Date(U32 - 0x8000, 1, 1)) == FIRST_FOUND_DAY
    ensures GregorianNumber(Date(U32, 1, 1)) == END_DAY
  {
  }

  /** The years are in the order of their first days */
  lemma YearBefore(e: Date, year: int)
    requires IsProleptic(e) && e.year >= 1 && year >= 1
    ensures e.year < year <==> GregorianNumber(e) < GregorianNumber(Date(year, 1, 1))
  {
    MonthOffsets(e);
    MonthOffsets(Date(year, 1, 1));
    if e.year < year {
      LeapDaysGrow(MarchYear(e), year - 1);
      EarlierYear(e, year);
    } else {
      LeapDaysGrow(year - 1, MarchYear(e));
    }
  }

  lemma EarlierYear(e: Date, year: int)
    requires IsProleptic(e) && 1 <= e.year < year && LeapDays(MarchYear(e)) <= LeapDays(year - 1)
    ensures GregorianNumber(e) < GregorianNumber(Date(year, 1, 1))
  {
    MonthOffsets(e);
    MonthOffsets(Date(year, 1, 1));
    assert MarchDoy(Date(year, 1, 1)) == 306;
    if e.month <= 2 {
      assert MarchYear(e) <= year - 2 && MarchDoy(e) <= 365;
    } else {
      assert MarchDoy(e) <= 305;
    }
  }

  /**
    The other way round: from 1582-10-15 on, a day is the number of the date it yields exactly
    up to the end of 32767 and in the last 32768 years before 2^32.
  */
  lemma DayRoundTripExactly(jd: int)
    requires jd >= 2299161
    ensures IsGregorian(DateOfDay(jd)) && DayNumber(DateOfDay(jd)) == jd
            <==> jd < FIRST_LOST_DAY || FIRST_FOUND_DAY <= jd < END_DAY
  {
    var e := DateOfDayIsGregorian(jd);
    YearOfNumber(e);
    FirstLostDayIsNewYear();
    YearBefore(e, 0x8000);
    YearBefore(e, U32 - 0x8000);
    YearBefore(e, U32);
    if e.year < U32 {
      CastKeepsYear(e.year);
      YieldsItsNumber(jd, e);
    } else {
      YieldsAnother(jd, e);
    }
  }

  lemma YieldsItsNumber(jd: int, e: Date)
    requires jd >= 2299161 && IsProleptic(e) && GregorianNumber(e) == jd && 1 <= e.year < U32
    requires DateOfDay(jd) == Date(ToU32(ToShort(e.year)), e.month, e.day)
    ensures IsGregorian(DateOfDay(jd)) && DayNumber(DateOfDay(jd)) == jd <==> ToU32(ToShort(e.year)) == e.year
  {
    if ToU32(ToShort(e.year)) == e.year {
      if Before(e, FIRST_GREGORIAN) {
        NotGregorianIsEarlier(e);
      }
      ProlepticIsGregorian(e);
      DayNumberByEra(e);
    } else {
      YieldsAnother(jd, e);
    }
  }

  /** A year that the casts change makes another date, which has another number if it is a date at all */
  lemma YieldsAnother(jd: int, e: Date)
    requires IsProleptic(e) && GregorianNumber(e) == jd && ToU32(ToShort(e.year)) != e.year
    requires DateOfDay(jd) == Date(ToU32(ToShort(e.year)), e.month, e.day)
    ensures !(IsGregorian(DateOfDay(jd)) && DayNumber(DateOfDay(jd)) == jd)
  {
    var d := DateOfDay(jd);
    if IsGregorian(d) {
      GregorianIsProleptic(d);
      DayNumberByEra(d);
      if GregorianNumber(d) == GregorianNumber(e) {
        GregorianNumberInjective(d, e);
      }
    }
  }

  lemma YearOfNumber(e: Date)
    requires IsProleptic(e)
    ensures GregorianNumber(e) >= 1721426 ==> e.year >= 1
  {
    LeapMarchYears(MarchYear(e));
    MonthOffsets(e);
  }

  lemma ProlepticIsGregorian(e: Date)
    requires IsProleptic(e) && 0 <= e.year < U32 && !Before(e, FIRST_GREGORIAN)
    ensures IsGregorian(e)
  {
  }

  lemma NotGregorianIsEarlier(e: Date)
    requires IsProleptic(e) && e.year >= 0 && Before(e, FIRST_GREGORIAN)
    ensures GregorianNumber(e) < 2299161
  {
    LeapMarchYears(MarchYear(e));
    MonthOffsets(e);
  }

  /** From each calendar day to the next the day number grows by exactly one */
  lemma NextDayIsNextNumber(d: Date)
    requires IsDate(d) && d.year < U32 - 1
    ensures IsDate(NextDay(d)) && DayNumber(NextDay(d)) == DayNumber(d) + 1
  {
    if d != LAST_JULIAN {
      NextDayInMarchYear(d);
      NextDayCount(d);
      DayNumberByEra(d);
      DayNumberByEra(NextDay(d));
    }
  }

  lemma NextDayCount(d: Date)
    requires IsDate(d) && d.year < U32 - 1 && d != LAST_JULIAN
    ensures var e := NextDay(d);
            if IsGregorian(d) then GregorianNumber(e) == GregorianNumber(d) + 1
            else GregorianNumber(e) + JulianLag(MarchYear(e)) == GregorianNumber(d) + JulianLag(MarchYear(d)) + 1
  {
    NextDayInMarchYear(d);
    LeapDaysStep(d.year - 1);
    LagStep(d.year - 1);
  }

  lemma NextDayInMarchYear(d: Date)
    requires IsDate(d) && d.year < U32 - 1 && d != LAST_JULIAN
    ensures var e := NextDay(d);
            && IsDate(e) && (IsGregorian(d) <==> IsGregorian(e))
            && if d.month == 2 && e.month == 3
               then MarchYear(d) == d.year - 1 && MarchYear(e) == d.year && MarchDoy(e) == 0
                    && MarchDoy(d) == if IsLeap(d.year) then 365 else 364
               else MarchYear(e) == MarchYear(d) && MarchDoy(e) == MarchDoy(d) + 1
  {
    MonthOffsets(d);
    MonthOffsets(NextDay(d));
  }

  /** In the Julian era the lag makes up for the century leap days that the Gregorian rule drops */
  lemma LagStep(y: int)
    ensures LeapDays(y + 1) + JulianLag(y + 1) == LeapDays(y) + JulianLag(y) + if (y + 1) % 4 == 0 then 1 else 0
  {
    var z := y + 1;
    assert z / 4 == y / 4 + if z % 4 == 0 then 1 else 0;
  }

  predicate IsGregorianLeap(y: int) {
    y % 4 == 0 && (y % 100 != 0 || y % 400 == 0)
  }

  lemma LeapDaysStep(y: int)
    ensures LeapDays(y + 1) == LeapDays(y) + if IsGregorianLeap(y + 1) then 1 else 0
  {
    var z := y + 1;
    assert z / 4 == y / 4 + if z % 4 == 0 then 1 else 0;
    assert z / 100 == y / 100 + if z % 100 == 0 then 1 else 0;
    assert z / 400 == y / 400 + if z % 400 == 0 then 1 else 0;
    HundredsAreFours(z);
  }

  lemma HundredsAreFours(z: int)
    ensures z % 400 == 0 ==> z % 100 == 0
    ensures z % 100 == 0 ==> z % 4 == 0
  {
    if z % 400 == 0 {
      DivModUnique(z, 100, 4 * (z / 400), 0);
    }
    if z % 100 == 0 {
      DivModUnique(z, 4, 25 * (z / 100), 0);
    }
  }

  lemma {:induction false} LeapDaysGrow(y: int, z: int)
    requires y <= z
    ensures LeapDays(y) <= LeapDays(z)
    ensures y < z && IsGregorianLeap(y + 1) ==> LeapDays(y) < LeapDays(z)
    decreases z - y
  {
    if y < z {
      LeapDaysStep(y);
      LeapDaysGrow(y + 1, z);
    }
  }

  /** Dates in order have numbers in order ... */
  lemma EarlierHasSmallerNumber(a: Date, b: Date)
    requires IsDate(a) && IsDate(b) && Before(a, b)
    ensures DayNumber(a) < DayNumber(b)
  {
    DayNumberByEra(a);
    DayNumberByEra(b);
    if IsGregorian(a) != IsGregorian(b) {
      GregorianNumbersAreDays(a);
      GregorianNumbersAreDays(b);
    } else {
      var y, z := MarchYear(a), MarchYear(b);
      SameEraOrder(a, b);
      if y < z && IsGregorian(a) {
        LeapDaysGrow(y, z);
      }
    }
  }

  lemma SameEraOrder(a: Date, b: Date)
    requires IsDate(a) && IsDate(b) && Before(a, b)
    ensures MarchYear(a) < MarchYear(b) || (MarchYear(a) == MarchYear(b) && MarchDoy(a) < MarchDoy(b))
    ensures 0 <= MarchDoy(a) <= 365 && 0 <= MarchDoy(b) <= 365
    ensures MarchDoy(a) == 365 ==> a.month == 2 && a.day == 29 && IsLeap(MarchYear(a) + 1)
  {
    MonthOffsets(a);
    MonthOffsets(b);
  }

  /** ... so that the day number orders dates as the calendar does, across the change of calendars too */
  lemma NumberOrderIsDateOrder(a: Date, b: Date)
    requires IsDate(a) && IsDate(b)
    ensures Before(a, b) <==> DayNumber(a) < DayNumber(b)
    ensures a == b <==> DayNumber(a) == DayNumber(b)
  {
    if Before(a, b) {
      EarlierHasSmallerNumber(a, b);
    } else if Before(b, a) {
      EarlierHasSmallerNumber(b, a);
    }
  }

  // ----- time of day -----

  const DAY_MS := 86400000

  predicate IsStamp(t: Stamp) {
    && IsDate(t.date)
    && 0 <= t.hour < 24 && 0 <= t.minute < 60 && 0 <= t.second < 60
    && 0 <= t.microsecond < 1000000
  }

  /** The time of day in whole milliseconds; microseconds below that are lost on the way to a Julian date */
  function Milliseconds(t: Stamp): int {
    ((t.hour * 60 + t.minute) * 60 + t.second) * 1000 + t.microsecond / 1000
  }

  function Instant(t: Stamp): int {
    DayNumber(t.date) * DAY_MS + Milliseconds(t)
  }

  lemma JulianDateOfInstant(t: Stamp)
    requires IsStamp(t)
    ensures 0 <= Milliseconds(t) < DAY_MS
    ensures JulianDate(t) + 0.5 == Instant(t) as real / 86400000.0
  {
    assert t.microsecond / 1000 == Quot(t.microsecond, 1000);
    var h, mi, s, ms := t.hour as real, t.minute as real, t.second as real, (t.microsecond / 1000) as real;
    assert Milliseconds(t) as real == ((h * 60.0 + mi) * 60.0 + s) * 1000.0 + ms;
    assert DayFraction(t) == Milliseconds(t) as real / 86400000.0;
  }

  lemma RatioFloor(g: int, unit: int)
    requires unit > 0
    ensures (g as real / unit as real).Floor == g / unit
  {
    var q, r := g / unit, g % unit;
    assert g == q * unit + r;
    assert g as real == q as real * unit as real + r as real;
    assert g as real / unit as real == q as real + r as real / unit as real;
    assert 0.0 <= r as real / unit as real < 1.0;
  }

  lemma RatioFrac(g: int, unit: int)
    requires unit > 0 && g >= 0
    ensures FracPart(g as real / unit as real) == (g % unit) as real / unit as real
  {
    RatioFloor(g, unit);
    var q, r := g / unit, g % unit;
    assert g == q * unit + r;
    assert g as real == q as real * unit as real + r as real;
    assert g as real / unit as real == q as real + r as real / unit as real;
  }

  /** A clock field: x counts some unit, the fraction of it is rescaled to a smaller unit and floored */
  lemma ClockField(g: int, x: real, unit: int, scale: real, sub: int)
    requires g >= 0 && unit > 0 && sub > 0 && x == g as real / unit as real
    requires scale * sub as real == unit as real
    ensures (FracPart(x) * scale).Floor == g % unit / sub
  {
    RatioFrac(g, unit);
    var r, f := (g % unit) as real, FracPart(x);
    assert f * unit as real == r;
    assert f * scale * sub as real == f * (scale * sub as real);
    assert f * scale == r / sub as real;
    RatioFloor(g % unit, sub);
  }

  lemma StampOfInstant(g: int, tjd: real)
    requires g >= 0 && tjd + 0.5 == g as real / 86400000.0
    ensures StampOf(tjd) == Stamp(DateOfDay(g / DAY_MS), g % DAY_MS / 3600000, g % 3600000 / 60000,
                                  g % 60000 / 1000, g % 1000 * 1000)
  {
    RatioFloor(g, DAY_MS);
    ClockOfInstant(g, DateOfDay(g / DAY_MS), tjd + 0.5);
  }

  lemma ClockOfInstant(g: int, date: Date, djd: real)
    requires g >= 0 && djd == g as real / 86400000.0
    ensures WithClock(date, djd) == Stamp(date, g % DAY_MS / 3600000, g % 3600000 / 60000, g % 60000 / 1000,
            g % 1000 * 1000)
  {
    ClockField(g, djd, DAY_MS, 24.0, 3600000);
    MinuteField(g, djd);
    SecondField(g, djd);
    MicrosecondField(g, djd);
  }

  lemma MinuteField(g: int, djd: real)
    requires g >= 0 && djd == g as real / 86400000.0
    ensures (FracPart(djd * 24.0) * 60.0).Floor == g % 3600000 / 60000
  {
    var hours := djd * 24.0;
    assert hours == g as real / 3600000.0;
    ClockField(g, hours, 3600000, 60.0, 60000);
  }

  lemma SecondField(g: int, djd: real)
    requires g >= 0 && djd == g as real / 86400000.0
    ensures (FracPart(djd * 24.0 * 60.0) * 60.0).Floor == g % 60000 / 1000
  {
    var minutes := djd * 24.0 * 60.0;
    assert minutes == g as real / 60000.0;
    ClockField(g, minutes, 60000, 60.0, 1000);
  }

  lemma MicrosecondField(g: int, djd: real)
    requires g >= 0 && djd == g as real / 86400000.0
    ensures (FracPart(djd * 24.0 * 60.0 * 60.0) * 1000000.0).Floor == g % 1000 * 1000
  {
    var seconds := djd * 24.0 * 60.0 * 60.0;
    assert seconds == g as real / 1000.0;
    RatioFrac(g, 1000);
    assert FracPart(seconds) * 1000000.0 == (g % 1000 * 1000) as real;
  }

  lemma DivModUnique(x: int, k: int, q: int, r: int)
    requires k > 0 && 0 <= r < k && x == q * k + r
    ensures x / k == q && x % k == r
  {
    var e := q - x / k;
    assert e * k == q * k - x / k * k;
    assert e * k == x % k - r;
    if e != 0 {
      MultipleOutOfRange(e, k);
    }
  }

  lemma MultipleOutOfRange(e: int, k: int)
    requires k > 0 && e != 0
    ensures e * k >= k || e * k <= -k
  {
    if e >= 1 {
      assert (e - 1) * k >= 0;
    } else {
      assert (-1 - e) * k >= 0;
    }
  }

  lemma ClockFields(day: int, h: int, mi: int, s: int, ms: int)
    requires 0 <= h < 24 && 0 <= mi < 60 && 0 <= s < 60 && 0 <= ms < 1000
    ensures var g := day * DAY_MS + ((h * 60 + mi) * 60 + s) * 1000 + ms;
            g / DAY_MS == day && g % DAY_MS / 3600000 == h && g % 3600000 / 60000 == mi
            && g % 60000 / 1000 == s && g % 1000 == ms
  {
    var g := day * DAY_MS + ((h * 60 + mi) * 60 + s) * 1000 + ms;
    DivModUnique(g, DAY_MS, day, ((h * 60 + mi) * 60 + s) * 1000 + ms);
    DivModUnique(((h * 60 + mi) * 60 + s) * 1000 + ms, 3600000, h, (mi * 60 + s) * 1000 + ms);
    DivModUnique(g, 3600000, 24 * day + h, (mi * 60 + s) * 1000 + ms);
    DivModUnique((mi * 60 + s) * 1000 + ms, 60000, mi, s * 1000 + ms);
    DivModUnique(g, 60000, (24 * day + h) * 60 + mi, s * 1000 + ms);
    DivModUnique(s * 1000 + ms, 1000, s, ms);
    DivModUnique(g, 1000, ((24 * day + h) * 60 + mi) * 60 + s, ms);
  }

  /**
    A time stamp survives the trip through its Julian date, to the millisecond, exactly when
    its date does.
  */
  lemma StampRoundTripExactly(t: Stamp)
    requires IsStamp(t)
    ensures JulianDate(t) + 0.5 >= 0.0
    ensures StampOf(JulianDate(t)) == t.(microsecond := t.microsecond / 1000 * 1000)
            <==> Survives(t.date)
  {
    StampOfStamp(t);
    RoundTripExactly(t.date);
  }

  /** The clock always comes back, to the millisecond */
  lemma StampOfStamp(t: Stamp)
    requires IsStamp(t)
    ensures JulianDate(t) + 0.5 >= 0.0
    ensures StampOf(JulianDate(t)) == t.(date := DateOfDay(DayNumber(t.date)),
            microsecond := t.microsecond / 1000 * 1000)
  {
    JulianDateOfInstant(t);
    GregorianNumbersAreDays(t.date);
    StampOfInstant(Instant(t), JulianDate(t));
    ClockFields(DayNumber(t.date), t.hour, t.minute, t.second, t.microsecond / 1000);
  }

  predicate StampBefore(t: Stamp, u: Stamp) {
    Before(t.date, u.date) || (t.date == u.date && Milliseconds(t) < Milliseconds(u))
  }

  /**
    Under exact arithmetic an interval is the difference of the two instants in milliseconds,
    so it is positive exactly for a later stamp, and intervals add up.
  */
  lemma IntervalsAreExact(t: Stamp, u: Stamp, v: Stamp)
    requires IsStamp(t) && IsStamp(u) && IsStamp(v)
    ensures TimeInterval(t, u) == Instant(u) - Instant(t)
    ensures StampBefore(t, u) <==> TimeInterval(t, u) > 0
    ensures TimeInterval(t, v) == TimeInterval(t, u) + TimeInterval(u, v)
  {
    IntervalIsDifference(t, u);
    IntervalIsDifference(u, v);
    IntervalIsDifference(t, v);
    JulianDateOfInstant(t);
    JulianDateOfInstant(u);
    NumberOrderIsDateOrder(t.date, u.date);
  }

  lemma IntervalIsDifference(t: Stamp, u: Stamp)
    requires IsStamp(t) && IsStamp(u)
    ensures TimeInterval(t, u) == Instant(u) - Instant(t)
  {
    JulianDateOfInstant(t);
    JulianDateOfInstant(u);
    var g, h := Instant(t), Instant(u);
    assert JulianDate(u) - JulianDate(t) == h as real / 86400000.0 - g as real / 86400000.0;
    assert (JulianDate(u) - JulianDate(t)) * 1000.0 * 60.0 * 60.0 * 24.0 == (h - g) as real;
  }

  /** The epoch J2000: noon of 2000-01-01 is the beginning of Julian day 2451545 */
  lemma NoonOfJ2000()
    ensures JulianDate(Stamp(Date(2000, 1, 1), 12, 0, 0, 0)) == 2451545.0
  {
    assert DayNumber(Date(2000, 1, 1)) == 2451545;
  }
}
