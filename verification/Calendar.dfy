/** The proleptic Gregorian calendar, defined by its successor function, and the day number arithmetic
    of src/base/src/datetime.cpp over it.
 */
module Calendar {
  import opened CArithmetic

  datatype Date = Date(year: int, month: int, day: int)

  function IsLeapYear(year: int): bool {
    year % 4 == 0 && (year % 100 != 0 || year % 400 == 0)
  }

  function DaysOfMonth(year: int, month: int): int
    requires 1 <= month <= 12
  {
    if month == 2 then (if IsLeapYear(year) then 29 else 28)
    else if month == 4 || month == 6 || month == 9 || month == 11 then 30
    else 31
  }

  predicate IsDate(d: Date) {
    1 <= d.month <= 12 && 1 <= d.day <= DaysOfMonth(d.year, d.month)
  }

  /** The calendar's own definition: the day after `d`. */
  function NextDay(d: Date): Date
    requires IsDate(d)
  {
    if d.day < DaysOfMonth(d.year, d.month) then Date(d.year, d.month, d.day + 1)
    else if d.month < 12 then Date(d.year, d.month + 1, 1)
    else Date(d.year + 1, 1, 1)
  }

  function PreviousDay(d: Date): Date
    requires IsDate(d)
  {
    if d.day > 1 then Date(d.year, d.month, d.day - 1)
    else if d.month > 1 then Date(d.year, d.month - 1, DaysOfMonth(d.year, d.month - 1))
    else Date(d.year - 1, 12, 31)
  }

  lemma NextAndPrevious(d: Date)
    requires IsDate(d)
    ensures IsDate(NextDay(d)) && PreviousDay(NextDay(d)) == d
    ensures IsDate(PreviousDay(d)) && NextDay(PreviousDay(d)) == d
  {
  }

  // Day numbers, counted from 1 March of year 0, as in `toJulianDay`

  /** The table of `toJulianDay`; months run from March (3) to February of the next year (14). */
  function MonthOffset(month: int): int
    requires 3 <= month <= 14
  {
    match month
    case 3 => 0 case 4 => 31 case 5 => 61 case 6 => 92 case 7 => 122 case 8 => 153
    case 9 => 184 case 10 => 214 case 11 => 245 case 12 => 275 case 13 => 306 case _ => 337
  }

  function MarchMonth(d: Date): int {
    if d.month < 3 then d.month + 12 else d.month
  }

  function MarchYear(d: Date): int {
    if d.month < 3 then d.year - 1 else d.year
  }

  function DayOfMarchYear(d: Date): int
    requires IsDate(d)
  {
    d.day + MonthOffset(MarchMonth(d))
  }

  function YearStart(year: int): int {
    365 * year + year / 4 - year / 100 + year / 400
  }

  function DayNumber(d: Date): int
    requires IsDate(d)
  {
    DayOfMarchYear(d) + YearStart(MarchYear(d))
  }

  /** `computeGregorian`, on whole days: z is the day number. Floors are Dafny's Euclidean divisions. */
  function FromDayNumber(z: int): Date {
    var (year, c) := MarchYearOf(z);
    FromMarchYear(year, c)
  }

  /** Its first half: the year that begins in March, and the day within it. */
  function MarchYearOf(z: int): (int, int) {
    var a := (4 * z - 1) / 146097;
    var b := a - a / 4;
    var year := (4 * (b + z) - 1) / 1461;
    (year, b + z - 1461 * year / 4)
  }

  /** Its second half: month and day, and the year of the calendar. */
  function FromMarchYear(year: int, c: int): Date {
    var month := (5 * c + 456) / 153;
    var day := c - (153 * month - 457) / 5;
    if month > 12 then Date(year + 1, month - 12, day) else Date(year, month, day)
  }

  /** A year from March to February has the length of the year its February is in. */
  function MarchYearLength(year: int): int {
    if IsLeapYear(year + 1) then 366 else 365
  }

  lemma YearStartNext(year: int)
    ensures YearStart(year + 1) == YearStart(year) + MarchYearLength(year)
  {
    var next := year + 1;
    assert next / 4 == year / 4 + (if next % 4 == 0 then 1 else 0);
    assert next / 100 == year / 100 + (if next % 100 == 0 then 1 else 0);
    assert next / 400 == year / 400 + (if next % 400 == 0 then 1 else 0);
    assert next % 400 == 0 ==> next % 100 == 0;
    assert next % 100 == 0 ==> next % 4 == 0;
  }

  lemma DayOfMarchYearNext(d: Date)
    requires IsDate(d)
    ensures IsDate(NextDay(d))
    ensures 1 <= DayOfMarchYear(d) <= MarchYearLength(MarchYear(d))
    ensures if d.month == 2 && NextDay(d).month == 3
            then DayOfMarchYear(d) == MarchYearLength(MarchYear(d)) && DayOfMarchYear(NextDay(d)) == 1
                 && MarchYear(NextDay(d)) == MarchYear(d) + 1
            else DayOfMarchYear(NextDay(d)) == DayOfMarchYear(d) + 1 && MarchYear(NextDay(d)) == MarchYear(d)
  {
  }

  /** `toJulianDay` goes up by exactly one from each calendar day to the next. */
  lemma DayNumberNext(d: Date)
    requires IsDate(d)
    ensures IsDate(NextDay(d)) && DayNumber(NextDay(d)) == DayNumber(d) + 1
  {
    hide DayOfMarchYear, YearStart, MarchYearLength;
    DayOfMarchYearNext(d);
    YearStartNext(MarchYear(d));
  }

  lemma CenturyOfDay(year: int, doy: int)
    requires 1 <= doy <= MarchYearLength(year)
    ensures (4 * (doy + YearStart(year)) - 1) / 146097 == year / 100
  {
    var a, k := year / 100, year % 100;
    var rest := 4 * (365 * k + k / 4 + doy) - 1 - a % 4;
    CenturyParts(year, a, k);
    assert 4 * (doy + YearStart(year)) - 1 == 146097 * a + rest;
    if k == 99 { CenturyEnd(year, a); }
    DivUnique(4 * (doy + YearStart(year)) - 1, 146097, a, rest);
  }

  lemma CenturyParts(year: int, a: int, k: int)
    requires a == year / 100 && k == year % 100
    ensures YearStart(year) == 365 * year + 25 * a + k / 4 - a + a / 4 && year == 100 * a + k
  {
    assert year / 4 == 25 * a + k / 4;
    assert year / 400 == a / 4;
  }

  lemma CenturyEnd(year: int, a: int)
    requires year == 100 * a + 99
    ensures IsLeapYear(year + 1) <==> a % 4 == 3
  {
    var q, r := (a + 1) / 4, (a + 1) % 4;
    DivUnique(year + 1, 4, 25 * (a + 1), 0);
    DivUnique(year + 1, 100, a + 1, 0);
    DivUnique(year + 1, 400, q, 100 * r);
  }

  lemma CenturyLeapDays(year: int, doy: int)
    ensures year / 100 - year / 100 / 4 + (doy + YearStart(year)) == doy + 365 * year + year / 4
  {
    assert year / 100 / 4 == year / 400;
  }

  lemma YearOfDay(year: int, doy: int)
    requires 1 <= doy <= MarchYearLength(year)
    ensures (4 * (doy + 365 * year + year / 4) - 1) / 1461 == year
    ensures 1461 * year / 4 == 365 * year + year / 4
  {
    assert year % 4 == 3 || !IsLeapYear(year + 1);
  }

  lemma MonthOfDay(d: Date)
    requires IsDate(d)
    ensures FromMarchYear(MarchYear(d), DayOfMarchYear(d)) == d
  {
  }

  lemma MarchYearOfInverts(d: Date)
    requires IsDate(d)
    ensures MarchYearOf(DayNumber(d)) == (MarchYear(d), DayOfMarchYear(d))
  {
    hide DayOfMarchYear, MarchYearLength, YearStart;
    var year, doy := MarchYear(d), DayOfMarchYear(d);
    DayOfMarchYearNext(d);
    CenturyOfDay(year, doy);
    YearOfDay(year, doy);
    CenturyLeapDays(year, doy);
  }

  /** `computeGregorian(toJulianDay(date))` is the date, for every date of every year. */
  lemma FromDayNumberInverts(d: Date)
    requires IsDate(d)
    ensures FromDayNumber(DayNumber(d)) == d
  {
    hide MarchYearOf, FromMarchYear;
    MarchYearOfInverts(d);
    MonthOfDay(d);
  }

  // Every day number is a date

  const EPOCH := Date(0, 1, 1)

  /** The calendar day n days after 1 January of year 0. */
  function DateAfter(n: nat): (d: Date)
    ensures IsDate(d) && d.year >= 0
  {
    if n == 0 then EPOCH else NextDay(DateAfter(n - 1))
  }

  lemma {:induction false} DayNumberOfDateAfter(n: nat)
    ensures DayNumber(DateAfter(n)) == n - 59
  {
    if n > 0 {
      DayNumberOfDateAfter(n - 1);
      DayNumberNext(DateAfter(n - 1));
    }
  }

  lemma PreviousDayNumber(d: Date)
    requires IsDate(d)
    ensures IsDate(PreviousDay(d)) && DayNumber(PreviousDay(d)) == DayNumber(d) - 1
  {
    NextAndPrevious(d);
    DayNumberNext(PreviousDay(d));
  }

  /** `computeGregorian` turns every day number into a date: from 1 January of year 0 on it is the one the calendar
      counts to, and before that day counting back. */
  lemma {:induction false} FromDayNumberIsDate(z: int)
    ensures IsDate(FromDayNumber(z)) && DayNumber(FromDayNumber(z)) == z
    ensures z >= -59 ==> FromDayNumber(z) == DateAfter(z + 59)
    ensures FromDayNumber(z + 1) == NextDay(FromDayNumber(z))
    decreases if z < -59 then -59 - z else 0
  {
    hide FromDayNumber, DayNumber;
    var d;
    if z >= -59 {
      DayNumberOfDateAfter(z + 59);
      d := DateAfter(z + 59);
    } else {
      FromDayNumberIsDate(z + 1);
      PreviousDayNumber(FromDayNumber(z + 1));
      d := PreviousDay(FromDayNumber(z + 1));
    }
    FromDayNumberInverts(d);
    DayNumberNext(d);
    FromDayNumberInverts(NextDay(d));
  }

  // Weeks

  /** 0 is Sunday. */
  function Weekday(d: Date): int
    requires IsDate(d)
  {
    (DayNumber(d) + 2) % 7
  }

  /** The weekday advances by one each day, and 15 October 1582 was a Friday. */
  lemma WeekdayNext(d: Date)
    requires IsDate(d)
    ensures IsDate(NextDay(d)) && Weekday(NextDay(d)) == (Weekday(d) + 1) % 7
    ensures Weekday(Date(1582, 10, 15)) == 5
  {
    hide DayNumber;
    DayNumberNext(d);
    ReformDayNumber();
  }

  lemma ReformDayNumber()
    ensures DayNumber(Date(1582, 10, 15)) == 578042
  {
  }

  function DayOfYear(d: Date): int
    requires IsDate(d)
  {
    DayNumber(d) - DayNumber(Date(d.year, 1, 1)) + 1
  }

  /** The week of `d` when week 1 is the one that contains 4 January: `start` is the day of the year on
      which week 1 begins. */
  function WeekContaining4January(d: Date, firstDayOfWeek: int): int
    requires IsDate(d) && 0 <= firstDayOfWeek <= 6
  {
    var start := 4 - (Weekday(Date(d.year, 1, 4)) - firstDayOfWeek) % 7;
    (DayOfYear(d) - start) / 7 + 1
  }

  lemma FourthOfJanuary(year: int)
    ensures DayNumber(Date(year, 1, 4)) == DayNumber(Date(year, 1, 1)) + 3
  {
    hide DayNumber;
    DayNumberNext(Date(year, 1, 1));
    DayNumberNext(Date(year, 1, 2));
    DayNumberNext(Date(year, 1, 3));
  }

  lemma WeekStep(doy: int, start: int, fourth: int, today: int, firstDayOfWeek: int)
    requires 0 <= firstDayOfWeek <= 6 && 0 <= fourth <= 6 && start == 4 - (fourth - firstDayOfWeek) % 7
    requires today == (fourth + doy - 4) % 7
    ensures (doy + 1 - start) / 7 == (doy - start) / 7 + if (today + 1) % 7 == firstDayOfWeek then 1 else 0
  {
  }

  /** 4 January is in week 1, and within a year the number grows by one on every first day of a week. */
  lemma WeekNext(d: Date, firstDayOfWeek: int)
    requires IsDate(d) && 0 <= firstDayOfWeek <= 6
    ensures WeekContaining4January(Date(d.year, 1, 4), firstDayOfWeek) == 1
    ensures IsDate(NextDay(d)) && (NextDay(d).year == d.year ==>
              WeekContaining4January(NextDay(d), firstDayOfWeek)
              == WeekContaining4January(d, firstDayOfWeek) + if Weekday(NextDay(d)) == firstDayOfWeek then 1 else 0)
  {
    hide DayNumber, NextDay;
    DayNumberNext(d);
    WeekdayNext(d);
    FourthOfJanuary(d.year);
    var fourth := Weekday(Date(d.year, 1, 4));
    WeekStep(DayOfYear(d), 4 - (fourth - firstDayOfWeek) % 7, fourth, Weekday(d), firstDayOfWeek);
  }
}
