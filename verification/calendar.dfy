/** Proleptic Gregorian calendar arithmetic on whole days counted from
    1 January 1970, the day arithmetic the JavaScript Date object performs
    for an integer number of days in UTC.

    Days are converted through a "March-based" year: a year that starts on
    1 March, so that the leap day is the last day of its year. An era is
    400 such years (146097 days), and the era beginning 1 March of year 0
    lies 719468 days before 1 January 1970; both numbers appear as
    literals below so that the solver treats the products as linear. */
module Calendar {

  datatype Date = Date(year: int, month: int, day: int)


  predicate IsLeapYear(y: int) {
    y % 4 == 0 && (y % 100 != 0 || y % 400 == 0)
  }

  function DaysInMonth(y: int, m: int): int {
    if m == 2 then (if IsLeapYear(y) then 29 else 28)
    else if m == 4 || m == 6 || m == 9 || m == 11 then 30
    else 31
  }

  /** A date that exists on the calendar. */
  predicate Valid(d: Date) {
    1 <= d.month <= 12 && 1 <= d.day <= DaysInMonth(d.year, d.month)
  }

  /** The calendar day after d, defined month by month without any day count. */
  function NextDay(d: Date): Date {
    if d.day < DaysInMonth(d.year, d.month) then Date(d.year, d.month, d.day + 1)
    else if d.month < 12 then Date(d.year, d.month + 1, 1)
    else Date(d.year + 1, 1, 1)
  }

  // ---------------------------------------------------------------------
  // March-based years

  /** Offset of March-based month mp (0 = March, ..., 11 = February) from 1 March. */
  function MonthStart(mp: int): int {
    (153 * mp + 2) / 5
  }

  /** The calendar month of March-based month mp. */
  function CalendarMonth(mp: int): int {
    if mp < 10 then mp + 3 else mp - 9
  }

  /** Offset of 1 March of year yoe of an era from the era's first day. */
  function YearStartInEra(yoe: int): int {
    365 * yoe + yoe / 4 - yoe / 100
  }

  /** The March-based year yoe of an era ends with February of calendar year yoe + 1. */
  function MarchYearLength(yoe: int): int {
    if IsLeapYear(yoe + 1) then 366 else 365
  }

  /** Splits a day of an era into the March-based year of the era and the
      day of that year: centuries, then 4-year blocks, then years. */
  function SplitEra(doe: int): (r: (int, int))
    requires 0 <= doe < 146097
    ensures 0 <= r.0 <= 399
    ensures 0 <= r.1 < MarchYearLength(r.0)
    ensures YearStartInEra(r.0) + r.1 == doe
  {
    var c := if doe == 146096 then 3 else doe / 36524;
    var doc := doe - 36524 * c;
    var b := doc / 1461;
    var dob := doc - 1461 * b;
    var y4 := if dob == 1460 then 3 else dob / 365;
    var yoe := 100 * c + 4 * b + y4;
    assert 0 <= b <= 24 && 0 <= y4 <= 3;
    DivMod4(yoe, 25 * c + b, y4);
    DivMod100(yoe, c, 4 * b + y4);
    assert dob == 1460 ==> IsLeapYear(yoe + 1) by {
      if dob == 1460 {
        if b == 24 {
          assert c == 3;
          DivMod400(yoe + 1, 1, 0);
        } else {
          DivMod4(yoe + 1, 25 * c + b + 1, 0);
          DivMod100(yoe + 1, c, 4 * b + 4);
        }
      }
    }
    (yoe, dob - 365 * y4)
  }

  lemma YearStartStep(yoe: int)
    requires 0 <= yoe < 399
    ensures YearStartInEra(yoe + 1) == YearStartInEra(yoe) + MarchYearLength(yoe)
  {
    DivStep4(yoe);
    DivStep100(yoe);
    assert (yoe + 1) % 400 == yoe + 1;
  }

  /** Adding one crosses a multiple of 4 exactly when the sum is one. */
  lemma DivStep4(x: int)
    requires x >= 0
    ensures (x + 1) / 4 == x / 4 + (if (x + 1) % 4 == 0 then 1 else 0)
  {
    var q := x / 4;
    assert x == 4 * q + x % 4;
    if x % 4 == 3 {
      DivMod4(x + 1, q + 1, 0);
    } else {
      DivMod4(x + 1, q, x % 4 + 1);
    }
  }

  lemma DivStep100(x: int)
    requires x >= 0
    ensures (x + 1) / 100 == x / 100 + (if (x + 1) % 100 == 0 then 1 else 0)
  {
    var q := x / 100;
    assert x == 100 * q + x % 100;
    if x % 100 == 99 {
      DivMod100(x + 1, q + 1, 0);
    } else {
      DivMod100(x + 1, q, x % 100 + 1);
    }
  }

  /** Division by 4 is determined by any quotient and remainder in range. */
  lemma DivMod4(x: int, q: int, r: int)
    requires x == 4 * q + r && 0 <= r < 4
    ensures x / 4 == q && x % 4 == r
  {
  }

  lemma DivMod100(x: int, q: int, r: int)
    requires x == 100 * q + r && 0 <= r < 100
    ensures x / 100 == q && x % 100 == r
  {
  }

  lemma DivMod400(x: int, q: int, r: int)
    requires x == 400 * q + r && 0 <= r < 400
    ensures x / 400 == q && x % 400 == r
  {
  }

  /** Day offsets of the March-based month mp and of the next one. */
  lemma MonthStartFacts(mp: int)
    requires 0 <= mp < 12
    ensures MonthStart(0) == 0 && MonthStart(11) == 337
    ensures mp < 11 ==> MonthStart(mp + 1) == MonthStart(mp) + DaysInMonth(0, CalendarMonth(mp))
  {
  }

  /** Whole-era shifts leave the position within an era unchanged. */
  lemma EraShift(era: int, y: int)
    ensures (era * 400 + y) % 400 == y % 400
    ensures 0 <= y < 400 ==> (era * 400 + y) / 400 == era
  {
    var q := y / 400;
    assert y == 400 * q + y % 400;
    DivMod400(era * 400 + y, era + q, y % 400);
  }

  lemma ReduceModulo400(y: int)
    ensures y % 4 == (y % 400) % 4
    ensures y % 100 == (y % 400) % 100
  {
    var q := y / 400;
    var r := y % 400;
    assert y == 400 * q + r;
    assert r == 4 * (r / 4) + r % 4;
    DivMod4(y, 100 * q + r / 4, r % 4);
    assert r == 100 * (r / 100) + r % 100;
    DivMod100(y, 4 * q + r / 100, r % 100);
  }

  /** Leap years repeat every 400 years. */
  lemma LeapPeriodic(era: int, y: int)
    ensures IsLeapYear(era * 400 + y) == IsLeapYear(y)
  {
    EraShift(era, y);
    ReduceModulo400(y);
    ReduceModulo400(era * 400 + y);
  }

  /** Splits a day of a March-based year into the March-based month and the
      day of the month; y is the calendar year holding that year's February. */
  function SplitYear(doy: int, y: int): (r: (int, int))
    requires 0 <= doy < (if IsLeapYear(y) then 366 else 365)
    ensures 0 <= r.0 < 12
    ensures 1 <= r.1 <= DaysInMonth(y, CalendarMonth(r.0))
    ensures MonthStart(r.0) + r.1 - 1 == doy
  {
    var mp := (5 * doy + 2) / 153;
    (mp, doy - MonthStart(mp) + 1)
  }

  /** The calendar date lying z days after 1 January 1970 (before it when z < 0). */
  function CivilFromDays(z: int): (d: Date)
    ensures Valid(d)
  {
    var n := z + 719468;
    var (yoe, doy) := SplitEra(n % 146097);
    DateInEra(n / 146097, yoe, doy)
  }

  /** The date of day doy of March-based year yoe of era era. */
  function DateInEra(era: int, yoe: int, doy: int): (d: Date)
    requires 0 <= yoe <= 399
    requires 0 <= doy < MarchYearLength(yoe)
    ensures Valid(d)
  {
    LeapPeriodic(era, yoe + 1);
    var (mp, day) := SplitYear(doy, era * 400 + yoe + 1);
    var m := CalendarMonth(mp);
    Date(era * 400 + yoe + (if m <= 2 then 1 else 0), m, day)
  }

  /** The number of days from 1 January 1970 to d (negative before it). */
  function DaysFromCivil(d: Date): int {
    var y := if d.month <= 2 then d.year - 1 else d.year;
    var mp := if d.month > 2 then d.month - 3 else d.month + 9;
    (y / 400) * 146097 + YearStartInEra(y % 400) + MonthStart(mp) + d.day - 1 - 719468
  }

  /** The day count of the date at an era position is that position's
      offset from 1 January 1970. */
  lemma DaysOfDateInEra(era: int, yoe: int, doy: int)
    requires 0 <= yoe <= 399
    requires 0 <= doy < MarchYearLength(yoe)
    ensures DaysFromCivil(DateInEra(era, yoe, doy)) == era * 146097 + YearStartInEra(yoe) + doy - 719468
  {
    LeapPeriodic(era, yoe + 1);
    var (mp, day) := SplitYear(doy, era * 400 + yoe + 1);
    var d := DateInEra(era, yoe, doy);
    assert d.month == CalendarMonth(mp) && d.day == day;
    var y := if d.month <= 2 then d.year - 1 else d.year;
    assert y == era * 400 + yoe;
    EraShift(era, yoe);
    assert (if d.month > 2 then d.month - 3 else d.month + 9) == mp;
  }

  /** Counting the days to the date of day z gives back z. */
  lemma DaysFromCivilOfCivil(z: int)
    ensures DaysFromCivil(CivilFromDays(z)) == z
  {
    var n := z + 719468;
    var era := n / 146097;
    var doe := n % 146097;
    var (yoe, doy) := SplitEra(doe);
    assert CivilFromDays(z) == DateInEra(era, yoe, doy);
    DaysOfDateInEra(era, yoe, doy);
    assert n == 146097 * era + doe;
  }

  /** A later year of an era starts after every day of an earlier one. */
  lemma {:induction false} YearStartMonotone(a: int, b: int)
    requires 0 <= a < b <= 399
    ensures YearStartInEra(b) >= YearStartInEra(a) + MarchYearLength(a)
    decreases b - a
  {
    YearStartStep(a);
    if a + 1 < b {
      YearStartMonotone(a + 1, b);
    }
  }

  /** Each day of an era has exactly one (year, day of year) decomposition. */
  lemma SplitEraUnique(doe: int, yoe: int, doy: int)
    requires 0 <= yoe <= 399
    requires 0 <= doy < MarchYearLength(yoe)
    requires doe == YearStartInEra(yoe) + doy
    ensures 0 <= doe < 146097
    ensures SplitEra(doe) == (yoe, doy)
  {
    if yoe < 399 {
      YearStartMonotone(yoe, 399);
    }
    var r := SplitEra(doe);
    if r.0 < yoe {
      YearStartMonotone(r.0, yoe);
    } else if r.0 > yoe {
      YearStartMonotone(yoe, r.0);
    }
  }

  /** Each day of a March-based year has exactly one (month, day) decomposition. */
  lemma SplitYearUnique(mp: int, day: int, y: int)
    requires 0 <= mp < 12
    requires 1 <= day <= DaysInMonth(y, CalendarMonth(mp))
    ensures MonthStart(mp) + day - 1 < (if IsLeapYear(y) then 366 else 365)
    ensures SplitYear(MonthStart(mp) + day - 1, y) == (mp, day)
  {
  }

  /** Division by the era length is determined by any era and day of era in range. */
  lemma EraDivision(n: int, era: int, doe: int)
    requires n == era * 146097 + doe && 0 <= doe < 146097
    ensures n / 146097 == era && n % 146097 == doe
  {
  }

  /** The era position of a valid date, read back from its day count. */
  lemma DateInEraOfDate(d: Date, era: int, yoe: int, doy: int)
    requires Valid(d)
    requires era * 400 + yoe == (if d.month <= 2 then d.year - 1 else d.year)
    requires 0 <= yoe < 400
    requires doy == MonthStart(if d.month > 2 then d.month - 3 else d.month + 9) + d.day - 1
    ensures 0 <= doy < MarchYearLength(yoe)
    ensures DateInEra(era, yoe, doy) == d
  {
    var mp := if d.month > 2 then d.month - 3 else d.month + 9;
    assert CalendarMonth(mp) == d.month;
    LeapPeriodic(era, yoe + 1);
    SplitYearUnique(mp, d.day, era * 400 + yoe + 1);
  }

  /** The date of an era position's day count is the date at that position. */
  lemma CivilOfEraPosition(z: int, era: int, yoe: int, doy: int)
    requires 0 <= yoe <= 399
    requires 0 <= doy < MarchYearLength(yoe)
    requires z == era * 146097 + YearStartInEra(yoe) + doy - 719468
    ensures CivilFromDays(z) == DateInEra(era, yoe, doy)
  {
    var n := z + 719468;
    SplitEraUnique(YearStartInEra(yoe) + doy, yoe, doy);
    EraDivision(n, era, YearStartInEra(yoe) + doy);
    SplitEraUnique(n % 146097, yoe, doy);
  }

  /** Every calendar date is the date of its own day count. */
  lemma CivilOfDaysFromCivil(d: Date)
    requires Valid(d)
    ensures CivilFromDays(DaysFromCivil(d)) == d
  {
    var y := if d.month <= 2 then d.year - 1 else d.year;
    var era := y / 400;
    var yoe := y % 400;
    var doy := MonthStart(if d.month > 2 then d.month - 3 else d.month + 9) + d.day - 1;
    DateInEraOfDate(d, era, yoe, doy);
    CivilOfEraPosition(DaysFromCivil(d), era, yoe, doy);
  }

  /** A valid date is the date of every count that counts to it. */
  lemma DateOfDayCount(d: Date, z: int)
    requires Valid(d) && DaysFromCivil(d) == z
    ensures CivilFromDays(z) == d
  {
    CivilOfDaysFromCivil(d);
  }

  /** Days from the epoch of the era system to 1 March of calendar year y. */
  function MarchYearStart(y: int): int {
    (y / 400) * 146097 + YearStartInEra(y % 400)
  }

  /** Consecutive March-based years are 365 days apart, or 366 when the
      second February has a leap day. */
  lemma MarchYearStep(y: int)
    ensures MarchYearStart(y + 1) == MarchYearStart(y) + (if IsLeapYear(y + 1) then 366 else 365)
  {
    var era := y / 400;
    var yoe := y % 400;
    assert y == era * 400 + yoe;
    if yoe < 399 {
      EraShift(era, yoe + 1);
      YearStartStep(yoe);
      LeapPeriodic(era, yoe + 1);
    } else {
      EraShift(era + 1, 0);
      LeapPeriodic(era + 1, 0);
    }
  }

  lemma DaysFromCivilByMarchYear(d: Date)
    ensures DaysFromCivil(d) == MarchYearStart(if d.month <= 2 then d.year - 1 else d.year)
      + MonthStart(if d.month > 2 then d.month - 3 else d.month + 9) + d.day - 1 - 719468
  {
  }

  /** The day after a valid date is a valid date, and it is counted one day later. */
  lemma DaysFromCivilNext(d: Date)
    requires Valid(d)
    ensures Valid(NextDay(d))
    ensures DaysFromCivil(NextDay(d)) == DaysFromCivil(d) + 1
  {
    if d.day < DaysInMonth(d.year, d.month) {
      NextInMonth(d);
    } else if d.month == 2 {
      NextAfterFebruary(d);
    } else if d.month < 12 {
      NextMonthInYear(d);
    } else {
      NextAfterDecember(d);
    }
  }

  lemma NextInMonth(d: Date)
    requires Valid(d) && d.day < DaysInMonth(d.year, d.month)
    ensures Valid(NextDay(d))
    ensures DaysFromCivil(NextDay(d)) == DaysFromCivil(d) + 1
  {
  }

  lemma NextMonthInYear(d: Date)
    requires Valid(d) && d.day == DaysInMonth(d.year, d.month) && d.month != 2 && d.month < 12
    ensures Valid(NextDay(d))
    ensures DaysFromCivil(NextDay(d)) == DaysFromCivil(d) + 1
  {
    var e := NextDay(d);
    assert e == Date(d.year, d.month + 1, 1);
    var mp := if d.month > 2 then d.month - 3 else d.month + 9;
    MonthStartFacts(mp);
    DaysFromCivilByMarchYear(d);
    DaysFromCivilByMarchYear(e);
  }

  lemma NextAfterFebruary(d: Date)
    requires Valid(d) && d.day == DaysInMonth(d.year, d.month) && d.month == 2
    ensures Valid(NextDay(d))
    ensures DaysFromCivil(NextDay(d)) == DaysFromCivil(d) + 1
  {
    var e := NextDay(d);
    assert e == Date(d.year, 3, 1);
    MonthStartFacts(11);
    MarchYearStep(d.year - 1);
    DaysFromCivilByMarchYear(d);
    DaysFromCivilByMarchYear(e);
  }

  lemma NextAfterDecember(d: Date)
    requires Valid(d) && d.day == DaysInMonth(d.year, d.month) && d.month == 12
    ensures Valid(NextDay(d))
    ensures DaysFromCivil(NextDay(d)) == DaysFromCivil(d) + 1
  {
    var e := NextDay(d);
    assert e == Date(d.year + 1, 1, 1);
    MonthStartFacts(9);
    DaysFromCivilByMarchYear(d);
    DaysFromCivilByMarchYear(e);
  }

  /** Day z + 1 is the calendar day after day z. */
  lemma CivilFromDaysSucc(z: int)
    ensures CivilFromDays(z + 1) == NextDay(CivilFromDays(z))
  {
    var d := CivilFromDays(z);
    var e := NextDay(d);
    DaysFromCivilOfCivil(z);
    DaysFromCivilNext(d);
    DateOfDayCount(e, z + 1);
  }

  /** Day 0 is 1 January 1970. */
  lemma CivilFromDaysEpoch()
    ensures CivilFromDays(0) == Date(1970, 1, 1)
    ensures DaysFromCivil(Date(1970, 1, 1)) == 0
  {
    assert DaysFromCivil(Date(1970, 1, 1)) == 0;
    CivilOfDaysFromCivil(Date(1970, 1, 1));
  }
}
