/** Civil dates from milliseconds, against the proleptic Gregorian calendar counted year by year. */
module Calendar {

  const MILLIS_PER_SEC: int := 1000
  const SECS_PER_MIN: int := 60
  const MINS_PER_HOUR: int := 60
  const MILLIS_PER_DAY: int := 86_400_000

  // ---------------------------------------------------------------------------
  // The program
  // ---------------------------------------------------------------------------

  /** Integer division that truncates toward zero. */
  function Quot(a: int, b: int): int
    requires b > 0
  {
    if a >= 0 then a / b else -((-a) / b)
  }

  datatype Date = Date(year: int, month: int, day: int)

  datatype CivilDate = CivilDate(
    date: Date, hour: int, minute: int, second: int, millisecond: int, dayOfWeek: int, dayOfYear: int)

  function DaysFromCivil(year: int, month: int, day: int): int {
    var y := if month <= 2 then year - 1 else year;
    var era := Quot(if y >= 0 then y else y - 399, 400);
    var yoe := y - era * 400;
    var doy := Quot(153 * (if month > 2 then month - 3 else month + 9) + 2, 5) + day - 1;
    var doe := yoe * 365 + Quot(yoe, 4) - Quot(yoe, 100) + doy;
    era * 146_097 + doe - 719_468
  }

  /** The year of an era that day `doe` of the era falls into. */
  function YearOfEra(doe: nat): int { (doe - doe / 1460 + doe / 36_524 - doe / 146_096) / 365 }

  /** The date of day `doy` of the year that starts in March of `y`. */
  function DateInYear(y: int, doy: nat): Date {
    var mp := (5 * doy + 2) / 153;
    var day := doy - (153 * mp + 2) / 5 + 1;
    var month := if mp < 10 then mp + 3 else mp - 9;
    Date(if month <= 2 then y + 1 else y, month, day)
  }

  /** Days of an era before its year `yoe`. */
  function DaysBefore(yoe: int): int { 365 * yoe + yoe / 4 - yoe / 100 }

  function EraOf(z: int): int { Quot(if z >= 0 then z else z - 146_096, 146_097) }

  /** Divisions other than the era's are of numbers that are never negative. */
  function DateInEra(era: int, doe: nat): (d: Date)
    requires doe < 146_097
    ensures IsDate(d) && DayNumber(d) == era * 146_097 + doe - 719_468
  {
    DayOfEra(era, doe);
    var yoe := YearOfEra(doe);
    DateInYear(yoe + era * 400, doe - DaysBefore(yoe))
  }

  /** For every day, past or future, the date is a date of the calendar and counts back to that day. */
  function CivilFromDays(days: int): (d: Date)
    ensures IsDate(d) && DayNumber(d) == days
  {
    var z := days + 719_468;
    var era := EraOf(z);
    EraFloors(z);
    DateInEra(era, z - era * 146_097)
  }

  /** 1 is Sunday. */
  function Weekday(days: int): int { (days % 7 + 4) % 7 + 1 }

  function CivilFromMillis(millis: int): CivilDate {
    var days := millis / MILLIS_PER_DAY;
    var msOfDay := millis % MILLIS_PER_DAY;
    var secs := Quot(msOfDay, MILLIS_PER_SEC);
    var date := CivilFromDays(days);
    CivilDate(
      date,
      Quot(secs, SECS_PER_MIN * MINS_PER_HOUR),
      Quot(secs, SECS_PER_MIN) % MINS_PER_HOUR,
      secs % SECS_PER_MIN,
      msOfDay % MILLIS_PER_SEC,
      Weekday(days),
      days - DaysFromCivil(date.year, 1, 1) + 1)
  }

  // ---------------------------------------------------------------------------
  // The calendar
  // ---------------------------------------------------------------------------

  predicate IsLeap(year: int) { year % 4 == 0 && (year % 100 != 0 || year % 400 == 0) }

  function YearLength(year: int): int { if IsLeap(year) then 366 else 365 }

  function MonthLength(year: int, month: int): int {
    if month == 2 then (if IsLeap(year) then 29 else 28)
    else if month == 4 || month == 6 || month == 9 || month == 11 then 30
    else 31
  }

  predicate IsDate(d: Date) { 1 <= d.month <= 12 && 1 <= d.day <= MonthLength(d.year, d.month) }

  /** Days from 1970-01-01 to the first of January, counted year by year in either direction. */
  function YearStart(year: int): int
    decreases if year >= 1970 then year - 1970 else 1970 - year
  {
    if year == 1970 then 0
    else if year > 1970 then YearStart(year - 1) + YearLength(year - 1)
    else YearStart(year + 1) - YearLength(year)
  }

  /** Days of the year before the month, counted month by month. */
  function MonthStart(year: int, month: int): int
    decreases month
  {
    if month <= 1 then 0 else MonthStart(year, month - 1) + MonthLength(year, month - 1)
  }

  function DayNumber(d: Date): int { YearStart(d.year) + MonthStart(d.year, d.month) + d.day - 1 }

  function NextDate(d: Date): Date {
    if d.day < MonthLength(d.year, d.month) then d.(day := d.day + 1)
    else if d.month < 12 then Date(d.year, d.month + 1, 1)
    else Date(d.year + 1, 1, 1)
  }

  // ---------------------------------------------------------------------------
  // Closed forms
  // ---------------------------------------------------------------------------

  /** Days from the epoch to the first of March of year `y`, in closed form. */
  function March(y: int): int { 365 * y + y / 4 - y / 100 + y / 400 - 719_468 }

  lemma MarchStep(y: int)
    ensures March(y) == March(y - 1) + YearLength(y)
  {
    assert y / 4 - (y - 1) / 4 == if y % 4 == 0 then 1 else 0;
    assert y / 100 - (y - 1) / 100 == if y % 100 == 0 then 1 else 0;
    assert y / 400 - (y - 1) / 400 == if y % 400 == 0 then 1 else 0;
    assert y % 400 == 0 ==> y % 100 == 0;
    assert y % 100 == 0 ==> y % 4 == 0;
  }

  lemma {:induction false} YearStartClosed(year: int)
    ensures YearStart(year) == March(year - 1) + 306
    decreases if year >= 1970 then year - 1970 else 1970 - year
  {
    if year > 1970 {
      YearStartClosed(year - 1);
      MarchStep(year - 1);
    } else if year < 1970 {
      YearStartClosed(year + 1);
      MarchStep(year);
    }
  }

  /** Days between the first of March and the first of the month, January and February being last. */
  function FromMarch(month: int): int { (153 * (if month > 2 then month - 3 else month + 9) + 2) / 5 }

  lemma MonthStartClosed(year: int, month: int)
    requires 1 <= month <= 12
    ensures MonthStart(year, month)
      == FromMarch(month) + if month > 2 then YearLength(year) - 306 else -306
  {
    assert MonthStart(year, 1) == 0 && MonthStart(year, 2) == 31;
    var f := if IsLeap(year) then 1 else 0;
    assert MonthStart(year, 3) == 59 + f;
    assert MonthStart(year, 4) == 90 + f;
    assert MonthStart(year, 5) == 120 + f;
    assert MonthStart(year, 6) == 151 + f;
    assert MonthStart(year, 7) == 181 + f;
    assert MonthStart(year, 8) == 212 + f;
    assert MonthStart(year, 9) == 243 + f;
    assert MonthStart(year, 10) == 273 + f;
    assert MonthStart(year, 11) == 304 + f;
    assert MonthStart(year, 12) == 334 + f;
  }

  lemma QuotFloors(a: int, b: int)
    requires b > 0
    ensures Quot(if a >= 0 then a else a - (b - 1), b) == a / b
  {
    if a < 0 {
      var n := (b - 1) - a;
      assert n == b * (n / b) + n % b;
      assert a == b * (-(n / b)) + (b - 1 - n % b);
      FloorIs(a, b, -(n / b), b - 1 - n % b);
    }
  }

  lemma FloorIs(a: int, b: int, q: int, r: int)
    requires b > 0 && a == b * q + r && 0 <= r < b
    ensures a / b == q && a % b == r
  {
    var d := a / b - q;
    assert b * d == r - a % b;
  }

  /** An era has 400 years; its own years count like those of year zero. */
  lemma EraMarch(y: int)
    ensures var era := y / 400; var yoe := y % 400;
      March(y) == era * 146_097 + yoe * 365 + yoe / 4 - yoe / 100 - 719_468
  {
    var era, yoe := y / 400, y % 400;
    assert y == 400 * era + yoe;
    assert y / 4 == 100 * era + yoe / 4;
    assert y / 100 == 4 * era + yoe / 100;
  }

  /** The program counts days as the calendar does, for all years. */
  lemma DaysFromCivilCounts(d: Date)
    requires 1 <= d.month <= 12
    ensures DaysFromCivil(d.year, d.month, d.day) == DayNumber(d)
  {
    var y := if d.month <= 2 then d.year - 1 else d.year;
    QuotFloors(y, 400);
    EraMarch(y);
    YearStartClosed(d.year);
    MonthStartClosed(d.year, d.month);
    MarchStep(d.year);
  }

  lemma EraFloors(z: int)
    ensures EraOf(z) == z / 146_097 && 0 <= z - EraOf(z) * 146_097 < 146_097
  {
    QuotFloors(z, 146_097);
  }

  /** The year of the era is the one whose days include the day; a leap day more closes the era. */
  lemma YearOfEraFits(doe: int)
    requires 0 <= doe <= 146_096
    ensures var yoe := YearOfEra(doe);
      && 0 <= yoe <= 399
      && DaysBefore(yoe) <= doe < DaysBefore(yoe + 1) + (if yoe == 399 then 1 else 0)
  {
    var a, b, c := doe / 1460, doe / 36_524, doe / 146_096;
    assert 0 <= b <= 4 && 0 <= a <= 100 && 0 <= c <= 1;
    assert b > 0 ==> a >= 25;
    var yoe := (doe - a + b - c) / 365;
    assert doe - a + b - c >= 0;
    assert yoe == YearOfEra(doe);
    CenturyOfEra(doe, a, b, c, yoe);
    LeapsOfEra(doe, a, b, c, yoe);
  }

  lemma CenturyOfEra(doe: int, a: int, b: int, c: int, yoe: int)
    requires 0 <= doe <= 146_096 && a == doe / 1460 && b == doe / 36_524 && c == doe / 146_096
    requires yoe == (doe - a + b - c) / 365
    ensures 0 <= yoe <= 399 && yoe / 100 == b - c
  {
    assert 0 <= b <= 4;
    if b == 0 { assert 0 <= yoe < 100; }
    else if b == 1 { assert 100 <= yoe < 200; }
    else if b == 2 { assert 200 <= yoe < 300; }
    else if b == 3 { assert 300 <= yoe < 400; }
    else { assert c == 1 && yoe == 399; }
  }

  lemma LeapsOfEra(doe: int, a: int, b: int, c: int, yoe: int)
    requires 0 <= doe <= 146_096 && a == doe / 1460 && b == doe / 36_524 && c == doe / 146_096
    requires yoe == (doe - a + b - c) / 365 && 0 <= yoe <= 399 && yoe / 100 == b - c
    ensures DaysBefore(yoe) <= doe < DaysBefore(yoe + 1) + (if yoe == 399 then 1 else 0)
  {
    var q := yoe / 4;
    assert b > 0 ==> a >= 25;
    assert a >= q;
    assert a <= (yoe + 1) / 4;
    assert (yoe + 1) / 100 == yoe / 100 + if yoe % 100 == 99 then 1 else 0;
    if yoe % 100 == 99 { assert a == (yoe + 1) / 4 ==> b == 4 || doe < 36_524 * (b + 1); }
  }

  /** Month and day within a year that runs from March to February. */
  lemma DateInYearFits(y: int, doy: int)
    requires 0 <= doy < YearLength(y + 1)
    ensures IsDate(DateInYear(y, doy)) && DayNumber(DateInYear(y, doy)) == March(y) + doy
  {
    var d := DateInYear(y, doy);
    MonthAndDay(y, doy);
    YearStartClosed(d.year);
    MonthStartClosed(d.year, d.month);
    MarchStep(d.year);
  }

  lemma MonthAndDay(y: int, doy: int)
    requires 0 <= doy < YearLength(y + 1)
    ensures var d := DateInYear(y, doy);
      IsDate(d) && d.year == (if d.month <= 2 then y + 1 else y) && FromMarch(d.month) + d.day - 1 == doy
  {
    var mp := (5 * doy + 2) / 153;
    assert 0 <= mp <= 11;
    if mp < 6 {
      assert mp == 0 || mp == 1 || mp == 2 || mp == 3 || mp == 4 || mp == 5;
    } else {
      assert mp == 6 || mp == 7 || mp == 8 || mp == 9 || mp == 10 || mp == 11;
    }
  }

  /** A March-based year of an era has as many days as the calendar gives it. */
  lemma YearOfEraLength(era: int, yoe: int)
    requires 0 <= yoe <= 399
    ensures DaysBefore(yoe + 1) + (if yoe == 399 then 1 else 0) == DaysBefore(yoe) + YearLength(yoe + era * 400 + 1)
  {
    var y := yoe + era * 400;
    MarchStep(y + 1);
    EraMarch(y);
    EraMarch(y + 1);
    FloorIs(y, 400, era, yoe);
    if yoe < 399 { FloorIs(y + 1, 400, era, yoe + 1); } else { FloorIs(y + 1, 400, era + 1, 0); }
  }

  // ---------------------------------------------------------------------------
  // Main results
  // ---------------------------------------------------------------------------

  /** Day `doe` of era `era`, dated year by year. */
  lemma DayOfEra(era: int, doe: nat)
    requires doe < 146_097
    ensures var yoe := YearOfEra(doe);
      && DaysBefore(yoe) <= doe
      && var d := DateInYear(yoe + era * 400, doe - DaysBefore(yoe));
         IsDate(d) && DayNumber(d) == era * 146_097 + doe - 719_468
  {
    var yoe := YearOfEra(doe);
    YearOfEraFits(doe);
    YearOfEraLength(era, yoe);
    var y, doy := yoe + era * 400, doe - DaysBefore(yoe);
    DateInYearFits(y, doy);
    FloorIs(y, 400, era, yoe);
    EraMarch(y);
  }

  lemma {:induction false} YearStartsApart(a: int, b: int)
    requires a < b
    ensures YearStart(a) + YearLength(a) <= YearStart(b)
    decreases b - a
  {
    YearStartClosed(a);
    YearStartClosed(a + 1);
    MarchStep(a);
    if a + 1 < b { YearStartsApart(a + 1, b); }
  }

  lemma {:induction false} MonthStartsApart(year: int, a: int, b: int)
    requires 1 <= a < b <= 13
    ensures 0 <= MonthStart(year, a) && MonthStart(year, a) + MonthLength(year, a) <= MonthStart(year, b)
    decreases b - a
  {
    if a + 1 < b { MonthStartsApart(year, a + 1, b); }
    if a > 1 { MonthStartNatural(year, a); }
  }

  lemma {:induction false} MonthStartNatural(year: int, month: int)
    ensures MonthStart(year, month) >= 0
    decreases month
  {
    if month > 1 { MonthStartNatural(year, month - 1); }
  }

  /** Days of the year run from one to the length of the year. */
  lemma DayOfYearRange(d: Date)
    requires IsDate(d)
    ensures 0 <= MonthStart(d.year, d.month) + d.day - 1 < YearLength(d.year)
  {
    MonthStartClosed(d.year, 12);
    MonthStartNatural(d.year, d.month);
    if d.month < 12 { MonthStartsApart(d.year, d.month, 12); }
  }

  /** No day has two dates. */
  lemma DatesUnique(d: Date, e: Date)
    requires IsDate(d) && IsDate(e) && DayNumber(d) == DayNumber(e)
    ensures d == e
  {
    DayOfYearRange(d);
    DayOfYearRange(e);
    if d.year < e.year { YearStartsApart(d.year, e.year); }
    if e.year < d.year { YearStartsApart(e.year, d.year); }
    if d.month < e.month { MonthStartsApart(d.year, d.month, e.month); }
    if e.month < d.month { MonthStartsApart(d.year, e.month, d.month); }
  }

  /** Every date of the calendar is the date of exactly the day that the program counts for it. */
  lemma EveryDateOnce(d: Date, days: int)
    requires IsDate(d)
    ensures CivilFromDays(days) == d <==> days == DaysFromCivil(d.year, d.month, d.day)
  {
    DaysFromCivilCounts(d);
    DatesUnique(CivilFromDays(DayNumber(d)), d);
  }

  lemma NextDateNumber(d: Date)
    requires IsDate(d)
    ensures IsDate(NextDate(d)) && DayNumber(NextDate(d)) == DayNumber(d) + 1
  {
    YearStartClosed(d.year);
    YearStartClosed(d.year + 1);
    MarchStep(d.year);
    MonthStartClosed(d.year, 12);
  }

  lemma StepsTo(d: Date, e: Date)
    requires IsDate(d) && IsDate(e) && DayNumber(e) == DayNumber(d) + 1
    ensures e == NextDate(d)
  {
    NextDateNumber(d);
    DatesUnique(e, NextDate(d));
  }

  /** The day after any day has the next date. */
  lemma CivilSteps(days: int)
    ensures CivilFromDays(days + 1) == NextDate(CivilFromDays(days))
  {
    StepsTo(CivilFromDays(days), CivilFromDays(days + 1));
  }

  lemma EpochDate(days: int)
    ensures CivilFromDays(days) == Date(1970, 1, 1) <==> days == 0
  {
    var epoch := Date(1970, 1, 1);
    assert IsDate(epoch) && DayNumber(epoch) == 0;
    if days == 0 { DatesUnique(CivilFromDays(days), epoch); }
  }

  lemma TimeOfDay(ms: int)
    requires 0 <= ms < MILLIS_PER_DAY
    ensures var secs := ms / 1000; var hour, minute, second := secs / 3600, secs / 60 % 60, secs % 60;
      && 0 <= hour < 24 && 0 <= minute < 60 && 0 <= second < 60
      && ms == ((hour * 60 + minute) * 60 + second) * 1000 + ms % 1000
  {
  }

  lemma OrdinalDate(d: Date, days: int)
    requires IsDate(d) && DayNumber(d) == days
    ensures days - DaysFromCivil(d.year, 1, 1) + 1 == MonthStart(d.year, d.month) + d.day
    ensures 1 <= MonthStart(d.year, d.month) + d.day <= YearLength(d.year)
  {
    DaysFromCivilCounts(Date(d.year, 1, 1));
    DayOfYearRange(d);
  }

  /** The time fields are in range and recompose the milliseconds, and the day of the year is the ordinal date. */
  lemma MillisFields(millis: int)
    ensures var c := CivilFromMillis(millis);
      && 0 <= c.hour < 24 && 0 <= c.minute < 60 && 0 <= c.second < 60 && 0 <= c.millisecond < 1000
      && millis == DayNumber(c.date) * MILLIS_PER_DAY
           + ((c.hour * 60 + c.minute) * 60 + c.second) * 1000 + c.millisecond
      && IsDate(c.date)
      && c.dayOfYear == MonthStart(c.date.year, c.date.month) + c.date.day
      && 1 <= c.dayOfYear <= YearLength(c.date.year)
  {
    var c, days := CivilFromMillis(millis), millis / MILLIS_PER_DAY;
    TimeOfDay(millis % MILLIS_PER_DAY);
    OrdinalDate(c.date, days);
  }

  /** Weekdays run from 1, Sunday, to 7, one further each day, and 1970-01-01 is a Thursday. */
  lemma WeekdaySteps(days: int)
    ensures 1 <= Weekday(days) <= 7 && Weekday(days + 1) == Weekday(days) % 7 + 1 && Weekday(0) == 5
  {
  }
}
