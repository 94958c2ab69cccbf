/** `DateTime` (src/base/src/datetime.cpp): an instant kept twice, as a tick count and as calendar fields.

    Julian days are `real` here. Floating point is modelled by letting the Julian day that reaches
    `computeGregorian` differ from the exact one.
 */
module DateTimes {
  import opened CArithmetic
  import opened Calendar

  // Microseconds

  const SECONDS: int := 1000000
  const MINUTES: int := 60 * SECONDS
  const HOURS: int := 60 * MINUTES
  const DAYS: int := 24 * HOURS

  // `Timespan`: the parts of a signed number of microseconds, by truncating division

  function SpanHours(span: int): int { Remainder(Quotient(span, HOURS), 24) }

  function SpanMinutes(span: int): int { Remainder(Quotient(span, MINUTES), 60) }

  function SpanSeconds(span: int): int { Remainder(Quotient(span, SECONDS), 60) }

  function SpanMilliseconds(span: int): int { Remainder(Quotient(span, 1000), 1000) }

  function SpanMicroseconds(span: int): int { Remainder(span, 1000) }

  datatype TimeOfDay = TimeOfDay(hour: int, minute: int, second: int, millisecond: int, microsecond: int) {
    function Micros(): int {
      hour * 3600000000 + minute * 60000000 + second * 1000000 + millisecond * 1000 + microsecond
    }

    predicate IsTime() {
      0 <= hour < 24 && 0 <= minute < 60 && 0 <= second < 60 && 0 <= millisecond < 1000 && 0 <= microsecond < 1000
    }
  }

  function SpanTime(span: int): TimeOfDay {
    TimeOfDay(SpanHours(span), SpanMinutes(span), SpanSeconds(span), SpanMilliseconds(span), SpanMicroseconds(span))
  }

  /** For a span from 0 on, the parts are the time of day. */
  lemma SpanTimeIsTime(span: int)
    requires span >= 0
    ensures SpanTime(span).IsTime() && SpanTime(span).Micros() == span % DAYS
  {
    DivTwice(span, 1000, 1000, SECONDS);
    DivTwice(span, SECONDS, 60, MINUTES);
    DivTwice(span, MINUTES, 60, HOURS);
    DivTwice(span, HOURS, 24, DAYS);
  }

  /** For a negative span every part is zero or negative. */
  lemma SpanTimeOfNegative(span: int)
    requires span < 0
    ensures var t := SpanTime(span); t.hour <= 0 && t.minute <= 0 && t.second <= 0 && t.millisecond <= 0 && t.microsecond <= 0
    ensures SpanTime(span).Micros() == -(-span % DAYS)
  {
    hide Quotient, Remainder;
    SpanTimeIsTime(-span);
    var t, u := SpanTime(span), SpanTime(-span);
    Negated(-span, HOURS);
    Negated(Quotient(-span, HOURS), 24);
    Negated(-span, MINUTES);
    Negated(Quotient(-span, MINUTES), 60);
    Negated(-span, SECONDS);
    Negated(Quotient(-span, SECONDS), 60);
    Negated(-span, 1000);
    Negated(Quotient(-span, 1000), 1000);
    assert t == TimeOfDay(-u.hour, -u.minute, -u.second, -u.millisecond, -u.microsecond);
  }

  lemma SpanTimeOfTime(t: TimeOfDay)
    requires t.IsTime()
    ensures SpanTime(t.Micros()) == t
  {
    var span := t.Micros();
    var seconds := (t.hour * 60 + t.minute) * 60 + t.second;
    DivUnique(span, 1000, seconds * 1000 + t.millisecond, t.microsecond);
    DivUnique(span / 1000, 1000, seconds, t.millisecond);
    DivUnique(seconds, 60, t.hour * 60 + t.minute, t.second);
    DivUnique(t.hour * 60 + t.minute, 60, t.hour, t.minute);
    DivTwice(span, 1000, 1000, SECONDS);
    DivTwice(span, SECONDS, 60, MINUTES);
    DivTwice(span, MINUTES, 60, HOURS);
  }

  lemma TimeIsUnique(t: TimeOfDay, u: TimeOfDay)
    requires t.IsTime() && u.IsTime() && t.Micros() == u.Micros()
    ensures t == u
  {
    SpanTimeOfTime(t);
    SpanTimeOfTime(u);
  }

  lemma SpanFits(span: int)
    ensures -24 < SpanHours(span) < 24 && -60 < SpanMinutes(span) < 60 && -60 < SpanSeconds(span) < 60
    ensures -1000 < SpanMilliseconds(span) < 1000 && -1000 < SpanMicroseconds(span) < 1000
  {
    hide Quotient, Remainder;
    RemainderFits(Quotient(span, HOURS), 24);
    RemainderFits(Quotient(span, MINUTES), 60);
    RemainderFits(Quotient(span, SECONDS), 60);
    RemainderFits(Quotient(span, 1000), 1000);
    RemainderFits(span, 1000);
  }

  // Real floors and integer divisions

  lemma FloorOfRatio(x: real, n: int, m: int)
    requires m > 0 && x * m as real == n as real
    ensures x.Floor == n / m
  {
    var q, r := n / m, n % m;
    assert n == q * m + r;
    assert (x - q as real) * m as real == r as real;
    FloorBounds(x, q, m, r);
  }

  lemma FloorBounds(x: real, q: int, m: int, r: int)
    requires 0 <= r < m && (x - q as real) * m as real == r as real
    ensures x.Floor == q
  {
    var d, k := x - q as real, m as real;
    RealProduct(d, k);
    assert d * k == r as real;
    assert 0.0 <= d < 1.0;
  }

  lemma RealProduct(d: real, m: real)
    requires m > 0.0
    ensures d < 0.0 ==> d * m < 0.0
    ensures d >= 1.0 ==> d * m >= m
  {
    if d >= 1.0 {
      assert (d - 1.0) * m >= 0.0;
    }
  }

  /** The first half of `computeGregorian`, as it is written there. */
  lemma MarchYearOfReal(z: int)
    ensures var g := z as real - 0.25;
            var a := (g / 36524.25).Floor;
            var b := a - (a as real / 4.0).Floor;
            var year := ((b as real + g) / 365.25).Floor;
            (year, b + z - (365.25 * year as real).Floor) == MarchYearOf(z)
  {
    var g := z as real - 0.25;
    FloorOfRatio(g / 36524.25, 4 * z - 1, 146097);
    var a := (4 * z - 1) / 146097;
    FloorOfRatio(a as real / 4.0, a, 4);
    var b := a - a / 4;
    FloorOfRatio((b as real + g) / 365.25, 4 * (b + z) - 1, 1461);
    var year := (4 * (b + z) - 1) / 1461;
    FloorOfRatio(365.25 * year as real, 1461 * year, 4);
  }

  /** Both halves: the date `computeGregorian` computes on reals is the one computed on integers. */
  lemma GregorianOfReal(z: int, r: real)
    requires FIRST_DAY <= z <= LAST_DAY && 0.0 <= r < 1.0
    ensures var g := z as real - 0.25;
            var a := (g / 36524.25).Floor;
            var b := a - (a as real / 4.0).Floor;
            var year := ((b as real + g) / 365.25).Floor;
            var c := b + z - (365.25 * year as real).Floor;
            var month := ((5 * c + 456) as real / 153.0).Floor;
            var dday := (c - ((153.0 * month as real - 457.0) / 5.0).Floor) as real + r;
            && FromDayNumber(z) == (if month > 12 then Date(year + 1, month - 12, dday.Floor) else Date(year, month, dday.Floor))
            && -30000 <= year <= 32600 && 0 <= month <= 24
  {
    hide MarchYearOf;
    MarchYearOfReal(z);
    var (year, c) := MarchYearOf(z);
    YearFits(z);
    FloorOfRatio((5 * c + 456) as real / 153.0, 5 * c + 456, 153);
    var month := (5 * c + 456) / 153;
    FloorOfRatio((153.0 * month as real - 457.0) / 5.0, 153 * month - 457, 5);
    FractionDropped(c - (153 * month - 457) / 5, r);
  }

  /** Years stay inside the range of `short` for every day an int64 tick count can name. */
  const FIRST_DAY := -10700000
  const LAST_DAY := 11900000

  lemma YearFits(z: int)
    requires FIRST_DAY <= z <= LAST_DAY
    ensures IsDate(FromDayNumber(z)) && -30000 <= FromDayNumber(z).year <= 32600
    ensures -30000 <= MarchYearOf(z).0 < 32600 && 1 <= MarchYearOf(z).1 <= 366
  {
    hide FromMarchYear, MarchYearOf, DayOfMarchYear;
    FromDayNumberIsDate(z);
    var d := FromDayNumber(z);
    DayOfMarchYearNext(d);
    MarchYearOfInverts(d);
    YearBound(MarchYear(d), DayOfMarchYear(d));
  }

  lemma YearBound(year: int, doy: int)
    requires 1 <= doy <= 366 && FIRST_DAY <= doy + YearStart(year) <= LAST_DAY
    ensures -30000 <= year <= 32590
  {
  }

  /** The fraction of a day, digit by digit, as `computeGregorian` takes it apart; only the microseconds
      are rounded, so they may reach 1000. */
  lemma TimeOfFraction(r: real)
    requires 0.0 <= r < 1.0
    ensures var h := (r * 24.0).Floor;
            var r1 := r * 24.0 - h as real;
            var m := (r1 * 60.0).Floor;
            var r2 := r1 * 60.0 - m as real;
            var s := (r2 * 60.0).Floor;
            var r3 := r2 * 60.0 - s as real;
            var ms := (r3 * 1000.0).Floor;
            var r4 := r3 * 1000.0 - ms as real;
            var us := (r4 * 1000.0 + 0.5).Floor;
            && 0 <= h < 24 && 0 <= m < 60 && 0 <= s < 60 && 0 <= ms < 1000 && 0 <= us <= 1000
            && TimeOfDay(h, m, s, ms, us).Micros() == (r * 86400000000.0 + 0.5).Floor
  {
    var h := (r * 24.0).Floor;
    var r1 := r * 24.0 - h as real;
    var m := (r1 * 60.0).Floor;
    var r2 := r1 * 60.0 - m as real;
    var s := (r2 * 60.0).Floor;
    var r3 := r2 * 60.0 - s as real;
    var ms := (r3 * 1000.0).Floor;
    var r4 := r3 * 1000.0 - ms as real;
    var whole := TimeOfDay(h, m, s, ms, 0).Micros();
    assert r * 86400000000.0 == whole as real + r4 * 1000.0;
    FloorShift(r4 * 1000.0 + 0.5, whole);
  }

  lemma FractionDropped(n: int, r: real)
    requires 0.0 <= r < 1.0
    ensures (n as real + r).Floor == n
  {
  }

  lemma FloorShift(x: real, n: int)
    ensures (x + n as real).Floor == x.Floor + n
  {
  }

  // Days and microseconds

  /** The days of a month, and then the days of the next, have consecutive numbers. */
  lemma DayNumberInMonth(year: int, month: int, day: int)
    requires 1 <= month <= 12 && 1 <= day <= DaysOfMonth(year, month)
    ensures DayNumber(Date(year, month, day)) == DayNumber(Date(year, month, 1)) + day - 1
  {
  }

  function MonthAfter(year: int, month: int): (int, int) {
    if month >= 12 then (year + 1, 1) else (year, month + 1)
  }

  lemma DayNumberAfterMonth(year: int, month: int)
    requires 1 <= month <= 12
    ensures var (y, m) := MonthAfter(year, month);
            DayNumber(Date(y, m, 1)) == DayNumber(Date(year, month, 1)) + DaysOfMonth(year, month)
  {
    var last := Date(year, month, DaysOfMonth(year, month));
    DayNumberNext(last);
    DayNumberInMonth(year, month, last.day);
  }

  /** Days counted past the end of their month. */
  function DayNumberPast(year: int, month: int, day: int): int
    requires 1 <= month <= 12
  {
    DayNumber(Date(year, month, 1)) + day - 1
  }

  /** Tick 0 is midnight of 15 October 1582; a tick is 100 nanoseconds. */
  function JulianDay(utcTime: int): real {
    utcTime as real / 864000000000.0 + 2299160.5
  }

  /** The whole microseconds of a tick count, counted from 1 March of year 0. */
  function MicrosOfTicks(utcTime: int): int {
    578042 * 86400000000 + Quotient(utcTime, 10)
  }

  /** Two instants less than an hour apart are on the same day, unless one is in the last hour of its
      day and the other in the first: the test `computeDaytime` makes. */
  lemma DaysApart(n: int, t: int, exactDay: int, e: int)
    requires 0 <= t < 86400000000 && 0 <= e < 86400000000
    requires -3600000000 <= (n * 86400000000 + t) - (exactDay * 86400000000 + e) < 3600000000
    ensures n - exactDay == if e / 3600000000 == 23 && t / 3600000000 == 0 then 1
                            else if e / 3600000000 == 0 && t / 3600000000 == 23 then -1
                            else 0
  {
  }

  /** The date `computeDaytime` leaves, given the exact hour and the one from the Julian day. */
  function RepairedDay(d: Date, exact: int, hour: int): (r: Date)
    requires IsDate(d)
    ensures IsDate(r)
  {
    if exact == 23 && hour == 0 then PreviousDay(d) else if exact == 0 && hour == 23 then NextDay(d) else d
  }

  /** The repair lands on the right day, across month and year boundaries too. */
  lemma RepairIsExact(d: Date, t: TimeOfDay, utcTime: int)
    requires IsDate(d) && t.IsTime() && utcTime >= 0
    requires -3600000000 <= DayNumber(d) * 86400000000 + t.Micros() - MicrosOfTicks(utcTime) < 3600000000
    ensures var exact := SpanTime(Quotient(utcTime, 10));
            var day := RepairedDay(d, exact.hour, t.hour);
            IsDate(day) && exact.IsTime() && DayNumber(day) * 86400000000 + exact.Micros() == MicrosOfTicks(utcTime)
  {
    hide SpanTime, DayNumber, NextDay, PreviousDay;
    var span := Quotient(utcTime, 10);
    var exact := SpanTime(span);
    SpanTimeIsTime(span);
    HourOfTime(t);
    HourOfTime(exact);
    DaysApart(DayNumber(d), t.Micros(), 578042 + span / 86400000000, exact.Micros());
    PreviousDayNumber(d);
    DayNumberNext(d);
  }

  lemma TimeInDay(t: TimeOfDay)
    requires t.IsTime()
    ensures 0 <= t.Micros() < 86400000000
  {
  }

  lemma DayAndRest(day: int, rest: int, micros: int)
    requires 0 <= rest < 86400000000 && day * 86400000000 + rest == micros
    ensures micros / 86400000000 == day && micros % 86400000000 == rest
  {
    DivUnique(micros, 86400000000, day, rest);
  }

  lemma HourOfTime(t: TimeOfDay)
    requires t.IsTime()
    ensures t.Micros() / 3600000000 == t.hour && 0 <= t.Micros() < 86400000000
  {
  }

  lemma InstantMoves(year: int, month: int, day: int, day': int, t: TimeOfDay, t': TimeOfDay)
    requires 1 <= month <= 12
    ensures DayNumberPast(year, month, day') * 86400000000 + t'.Micros()
         == DayNumberPast(year, month, day) * 86400000000 + t.Micros() + ((day' - day) * 86400000000 + t'.Micros() - t.Micros())
  {
    hide DayNumber;
  }

  lemma NonnegativeQuotient(a: int, b: int)
    requires a >= 0 && b > 0
    ensures Quotient(a, b) == a / b
  {
  }

  /** Less than an hour off, with two microseconds to spare. */
  predicate IsNear(julianDay: real, utcTime: int) {
    -3599999998.0 <= (julianDay - JulianDay(utcTime)) * 86400000000.0 <= 3599999998.0
  }

  /** The microsecond nearest to a Julian day, counted from 1 March of year 0. */
  function NearestMicros(julianDay: real): int {
    ((julianDay - 1721118.5) * 86400000000.0 + 0.5).Floor
  }

  predicate InRange(julianDay: real) {
    FIRST_DAY as real <= julianDay - 1721118.5 < LAST_DAY as real
  }

  lemma ExactJulianDay(utcTime: int64)
    ensures InRange(JulianDay(utcTime)) && IsNear(JulianDay(utcTime), utcTime)
    ensures NearestMicros(JulianDay(utcTime)) == 578042 * 86400000000 + (utcTime + 5) / 10
  {
    var x := utcTime as real / 10.0 + 0.5;
    assert (JulianDay(utcTime) - 1721118.5) * 86400000000.0 + 0.5 == x + (578042 * 86400000000) as real;
    FloorShift(x, 578042 * 86400000000);
    FloorOfRatio(x, utcTime + 5, 10);
  }

  lemma JulianDayNear(utcTime: int64, julianDay: real)
    requires 0 <= utcTime && IsNear(julianDay, utcTime)
    ensures InRange(julianDay)
    ensures -3600000000 <= NearestMicros(julianDay) - MicrosOfTicks(utcTime) < 3600000000
  {
    NonnegativeQuotient(utcTime, 10);
    var micros := utcTime / 10;
    assert JulianDay(utcTime) * 86400000000.0 == utcTime as real / 10.0 + 2299160.5 * 86400000000.0;
  }

  /** The calendar day of a tick count from 0 on, counted out day by day. */
  function DayOfTicks(ticks: int): Date
    requires ticks >= 0
  {
    DateAfter(59 + 578042 + ticks / 10 / 86400000000)
  }

  predicate IsMidnight(ticks: int) {
    ticks % 864000000000 == 0
  }

  function MidnightDay(ticks: int): Date {
    FromDayNumber(578042 + ticks / 864000000000)
  }

  /** A day and a time of day are determined by their microseconds. */
  lemma DateOfMicros(d: Date, t: TimeOfDay, utcTime: int)
    requires IsDate(d) && t.IsTime() && utcTime >= 0
    requires DayNumber(d) * 86400000000 + t.Micros() == MicrosOfTicks(utcTime)
    ensures d == DayOfTicks(utcTime)
    ensures t.Micros() == utcTime / 10 % 86400000000
  {
    hide DayNumber, FromDayNumber, DateAfter, TimeOfDay.Micros, TimeOfDay.IsTime;
    NonnegativeQuotient(utcTime, 10);
    TimeInDay(t);
    DayAndRest(DayNumber(d) - 578042, t.Micros(), utcTime / 10);
    FromDayNumberInverts(d);
    FromDayNumberIsDate(DayNumber(d));
  }

  predicate IsValid(d: Date, t: TimeOfDay) {
    0 <= d.year <= 9999 && IsDate(d) && t.IsTime()
  }

  /** `toJulianDay` for a date. */
  function ToJulianDay(year: int, month: int, day: int): real
    requires 1 <= month <= 12
  {
    var m := if month < 3 then month + 12 else month;
    var y := if month < 3 then year - 1 else year;
    day as real + MonthOffset(m) as real + 365.0 * y as real + (y as real / 4.0).Floor as real
    - (y as real / 100.0).Floor as real + (y as real / 400.0).Floor as real + 1721118.5
  }

  /** `toUtcTime`: the conversion to an integer truncates. */
  function ToUtcTime(julianDay: real): int {
    var ticks := (julianDay - 2299160.5) * 864000000000.0;
    if ticks >= 0.0 then ticks.Floor else -(-ticks).Floor
  }

  function Ticks(d: Date, t: TimeOfDay): int
    requires IsDate(d)
  {
    (DayNumber(d) - 578042) * 864000000000 + 10 * t.Micros()
  }

  lemma ToUtcTimeIsExact(d: Date)
    requires IsDate(d)
    ensures ToJulianDay(d.year, d.month, d.day) == DayNumber(d) as real + 1721118.5
    ensures ToUtcTime(ToJulianDay(d.year, d.month, d.day)) == (DayNumber(d) - 578042) * 864000000000
  {
    var y := MarchYear(d);
    FloorOfRatio(y as real / 4.0, y, 4);
    FloorOfRatio(y as real / 100.0, y, 100);
    FloorOfRatio(y as real / 400.0, y, 400);
    assert ToJulianDay(d.year, d.month, d.day) == DayNumber(d) as real + 1721118.5;
    WholeTicks(DayNumber(d) - 578042);
  }

  lemma WholeTicks(days: int)
    ensures ToUtcTime(days as real + 2299160.5) == days * 864000000000
  {
    var ticks := days * 864000000000;
    assert (days as real + 2299160.5 - 2299160.5) * 864000000000.0 == ticks as real;
  }

  lemma TicksFit(d: Date, t: TimeOfDay)
    requires IsValid(d, t)
    ensures -578101 * 864000000000 <= Ticks(d, t) < 0x8000_0000_0000_0000
  {
    HourOfTime(t);
    DayNumberRange(d);
  }

  lemma DayNumberRange(d: Date)
    requires IsDate(d) && 0 <= d.year <= 9999
    ensures -59 <= DayNumber(d) < 4000000
  {
    DayOfMarchYearNext(d);
  }

  /** The date fields that `computeGregorian` and `computeDaytime` leave together, from the microsecond the
      Julian day stands for and the exact hour. */
  function Repaired(micros: int, exact: int): (d: Date)
    ensures IsDate(d)
  {
    FromDayNumberIsDate(micros / 86400000000);
    RepairedDay(FromDayNumber(micros / 86400000000), exact, micros % 86400000000 / 3600000000)
  }

  lemma RepairedFrom(d: Date, t: TimeOfDay, micros: int, exact: int)
    requires IsDate(d) && t.IsTime() && DayNumber(d) * 86400000000 + t.Micros() == micros
    ensures Repaired(micros, exact) == RepairedDay(d, exact, t.hour)
  {
    hide DayNumber, FromDayNumber, RepairedDay, TimeOfDay.Micros, TimeOfDay.IsTime;
    HourOfTime(t);
    DayAndRest(DayNumber(d), t.Micros(), micros);
    FromDayNumberInverts(d);
  }

  lemma TimeExists(micros: int) returns (d: Date, t: TimeOfDay)
    ensures IsDate(d) && t.IsTime() && DayNumber(d) * 86400000000 + t.Micros() == micros
  {
    hide DayNumber, FromDayNumber, SpanTime, TimeOfDay.Micros, TimeOfDay.IsTime;
    FromDayNumberIsDate(micros / 86400000000);
    SpanTimeIsTime(micros % 86400000000);
    d, t := FromDayNumber(micros / 86400000000), SpanTime(micros % 86400000000);
  }

  /** With a Julian day less than an hour off, date and time are exact from tick 0 on. */
  lemma RepairedIsExact(utcTime: int64, julianDay: real)
    requires 0 <= utcTime && IsNear(julianDay, utcTime)
    ensures var d, t := Repaired(NearestMicros(julianDay), SpanHours(Quotient(utcTime, 10))), SpanTime(Quotient(utcTime, 10));
            && d == DayOfTicks(utcTime) && t.IsTime() && t.Micros() == utcTime / 10 % 86400000000
            && DayNumber(d) * 86400000000 + t.Micros() == MicrosOfTicks(utcTime)
  {
    hide DayNumber, RepairedDay, Repaired, DayOfTicks, NearestMicros, IsNear, MicrosOfTicks, SpanTime, TimeOfDay.Micros;
    JulianDayNear(utcTime, julianDay);
    var d, t := TimeExists(NearestMicros(julianDay));
    ExactHour(utcTime);
    RepairedFrom(d, t, NearestMicros(julianDay), SpanHours(Quotient(utcTime, 10)));
    RepairIsExact(d, t, utcTime);
    DateOfMicros(Repaired(NearestMicros(julianDay), SpanHours(Quotient(utcTime, 10))), SpanTime(Quotient(utcTime, 10)), utcTime);
  }

  lemma ExactHour(utcTime: int)
    ensures SpanTime(Quotient(utcTime, 10)).hour == SpanHours(Quotient(utcTime, 10))
  {
  }

  /** From tick 0 on, and in the hour before any midnight, where the hours of the negative span are zero. */
  predicate KeepsInstant(ticks: int) {
    ticks >= 0 || SpanHours(Quotient(ticks, 10)) == 0
  }

  /** Before tick 0 the date is that of the next midnight in the last hour of a day, and else that of the midnight
      before, although the negative time of day counts from the next. */
  lemma RepairOfNegative(days: int, rest: int, n: int, micros: int, hour: int)
    requires 0 <= rest < 86400000000 && n * 86400000000 <= micros < (n + 1) * 86400000000
    requires micros == -days * 86400000000 - rest || micros == -days * 86400000000 - rest - 1
    requires hour == (micros - n * 86400000000) / 3600000000
    ensures rest / 3600000000 == 0 ==> n + (if hour == 23 then 1 else 0) == -days
    ensures rest / 3600000000 != 0 ==> n == -days - 1
  {
  }

  lemma NegativeTicks(ticks: int64) returns (days: int, rest: int)
    requires ticks < 0
    ensures 0 <= rest < 86400000000 && Quotient(ticks, 10) == -days * 86400000000 - rest
    ensures SpanTime(Quotient(ticks, 10)).Micros() == -rest && SpanHours(Quotient(ticks, 10)) == -(rest / 3600000000)
    ensures (ticks + 5) / 10 == -days * 86400000000 - rest || (ticks + 5) / 10 == -days * 86400000000 - rest - 1
  {
    hide SpanTime, SpanHours, TimeOfDay.Micros;
    var n: int := ticks;
    var span := -n / 10;
    days, rest := span / 86400000000, span % 86400000000;
    Truncated(ticks, span);
    NegativeParts(span);
  }

  lemma Truncated(ticks: int, span: int)
    requires ticks < 0 && span == -ticks / 10
    ensures Quotient(ticks, 10) == -span && span >= 0 && ((ticks + 5) / 10 == -span || (ticks + 5) / 10 == -span - 1)
  {
  }

  lemma NegativeParts(span: int)
    requires span >= 0
    ensures SpanHours(-span) == -(span % 86400000000 / 3600000000)
    ensures SpanTime(-span).Micros() == -(span % 86400000000)
  {
    hide Quotient, Remainder, TimeOfDay.Micros;
    Negated(span, HOURS);
    Negated(Quotient(span, HOURS), 24);
    SpanTimeIsTime(span);
    HourOfTime(SpanTime(span));
    if span > 0 {
      SpanTimeOfNegative(-span);
    }
  }

  function DateOfTicks(ticks: int): (d: Date)
    ensures IsDate(d)
  {
    Repaired(NearestMicros(JulianDay(ticks)), SpanHours(Quotient(ticks, 10)))
  }

  /** The fields of a tick count name its microsecond exactly if it is not before tick 0 or in the last hour before
      a midnight; otherwise they name one a day earlier. */
  lemma FieldsOfTicks(ticks: int64)
    ensures var d, t := DateOfTicks(ticks), SpanTime(Quotient(ticks, 10));
            DayNumber(d) * 86400000000 + t.Micros() == MicrosOfTicks(ticks) - if KeepsInstant(ticks) then 0 else 86400000000
  {
    hide DayNumber, RepairedDay, Repaired, NearestMicros, SpanTime, TimeOfDay.Micros, JulianDay;
    ExactJulianDay(ticks);
    if ticks >= 0 {
      RepairedIsExact(ticks, JulianDay(ticks));
    } else {
      var days, rest := NegativeTicks(ticks);
      var micros := NearestMicros(JulianDay(ticks));
      var d, t := TimeExists(micros);
      HourOfTime(t);
      RepairOfNegative(days, rest, DayNumber(d) - 578042, (ticks + 5) / 10, t.hour);
      RepairedFrom(d, t, micros, SpanHours(Quotient(ticks, 10)));
      RepairMoves(d, SpanHours(Quotient(ticks, 10)), t.hour);
    }
  }

  /** The end of the day in which a tick count before 0 falls, and from which its parts are counted. */
  function NextMidnight(ticks: int): int {
    578042 * 86400000000 + Quotient(Quotient(ticks, 10), 86400000000) * 86400000000
  }

  /** The same with a Julian day less than an hour off: before tick 0 it must not fall more than an hour short of the
      midnight either. */
  lemma FieldsOfTicksNear(ticks: int64, julianDay: real)
    requires IsNear(julianDay, ticks)
    ensures var d, t := Repaired(NearestMicros(julianDay), SpanHours(Quotient(ticks, 10))), SpanTime(Quotient(ticks, 10));
            DayNumber(d) * 86400000000 + t.Micros() == MicrosOfTicks(ticks)
            <==> ticks >= 0 || (KeepsInstant(ticks) && NearestMicros(julianDay) >= NextMidnight(ticks) - 3600000000)
  {
    hide DayNumber, RepairedDay, Repaired, NearestMicros, IsNear, SpanTime, TimeOfDay.Micros;
    if ticks >= 0 {
      RepairedIsExact(ticks, julianDay);
    } else {
      var days, rest := NegativeTicks(ticks);
      var micros := NearestMicros(julianDay);
      var d, t := TimeExists(micros);
      HourOfTime(t);
      NearOfNegative(ticks, julianDay);
      NextMidnightIs(ticks, days, rest);
      NearRepair(days, rest, DayNumber(d) - 578042, micros - 578042 * 86400000000, t.hour);
      RepairedFrom(d, t, micros, SpanHours(Quotient(ticks, 10)));
      RepairMoves(d, SpanHours(Quotient(ticks, 10)), t.hour);
    }
  }

  lemma NextMidnightIs(ticks: int, days: int, rest: int)
    requires ticks < 0 && 0 <= rest < 86400000000 && Quotient(ticks, 10) == -days * 86400000000 - rest
    ensures NextMidnight(ticks) == (578042 - days) * 86400000000
  {
    var n: int := -ticks;
    Negated(n, 10);
    DivUnique(n / 10, 86400000000, days, rest);
    Negated(n / 10, 86400000000);
  }

  lemma NearOfNegative(ticks: int64, julianDay: real)
    requires ticks < 0 && IsNear(julianDay, ticks)
    ensures -3600000000 <= NearestMicros(julianDay) - MicrosOfTicks(ticks) < 3600000000
  {
    var n: int := ticks;
    var span := -n / 10;
    Truncated(ticks, span);
    assert JulianDay(ticks) * 86400000000.0 == ticks as real / 10.0 + 2299160.5 * 86400000000.0;
    assert -span as real - 1.0 < ticks as real / 10.0 <= -span as real;
  }

  lemma NearRepair(days: int, rest: int, n: int, micros: int, hour: int)
    requires 0 <= rest < 86400000000 && n * 86400000000 <= micros < (n + 1) * 86400000000
    requires -3600000000 <= micros - (-days * 86400000000 - rest) < 3600000000
    requires hour == (micros - n * 86400000000) / 3600000000
    ensures n + (if rest / 3600000000 == 0 && hour == 23 then 1 else 0) == -days
       <==> rest / 3600000000 == 0 && micros >= -days * 86400000000 - 3600000000
  {
  }

  lemma RepairMoves(d: Date, exact: int, hour: int)
    requires IsDate(d)
    ensures IsDate(RepairedDay(d, exact, hour))
    ensures DayNumber(RepairedDay(d, exact, hour))
         == DayNumber(d) + if exact == 23 && hour == 0 then -1 else if exact == 0 && hour == 23 then 1 else 0
  {
    DayNumberNext(d);
    PreviousDayNumber(d);
    hide DayNumber;
  }

  lemma MidnightFields(ticks: int64, d: Date)
    requires IsMidnight(ticks) && IsDate(d)
    requires DayNumber(d) * 86400000000 + SpanTime(Quotient(ticks, 10)).Micros()
          == MicrosOfTicks(ticks) - if KeepsInstant(ticks) then 0 else 86400000000
    ensures d == MidnightDay(ticks)
  {
    hide DayNumber, FromDayNumber, SpanTime, TimeOfDay.Micros, Quotient;
    FromDayNumberInverts(d);
    MidnightSpan(ticks);
    if ticks >= 0 {
      SpanTimeIsTime(Quotient(ticks, 10));
    } else {
      var days, rest := NegativeTicks(ticks);
      MidnightRest(days, rest, ticks / 864000000000);
    }
  }

  lemma MidnightSpan(ticks: int)
    requires IsMidnight(ticks)
    ensures Quotient(ticks, 10) == ticks / 864000000000 * 86400000000 && Quotient(ticks, 10) % 86400000000 == 0
  {
    var days := ticks / 864000000000;
    assert ticks == 864000000000 * days;
  }

  lemma MidnightRest(days: int, rest: int, n: int)
    requires 0 <= rest < 86400000000 && -days * 86400000000 - rest == n * 86400000000
    ensures rest == 0
  {
  }

  lemma MidnightReturns(d: Date, t: TimeOfDay)
    requires IsDate(d) && t.Micros() == 0
    ensures IsMidnight(Ticks(d, t)) && MidnightDay(Ticks(d, t)) == d
  {
    hide DayNumber, FromDayNumber;
    DivUnique(Ticks(d, t), 864000000000, DayNumber(d) - 578042, 0);
    FromDayNumberInverts(d);
  }

  lemma TicksReturn(d: Date, t: TimeOfDay)
    requires IsDate(d) && t.IsTime() && Ticks(d, t) >= 0
    ensures SpanTime(Quotient(Ticks(d, t), 10)) == t && DayOfTicks(Ticks(d, t)) == d
  {
    hide DayNumber, FromDayNumber, SpanTime, DateAfter, Quotient, TimeOfDay.Micros, TimeOfDay.IsTime;
    var days, ticks := DayNumber(d) - 578042, Ticks(d, t);
    var span := days * 86400000000 + t.Micros();
    TimeInDay(t);
    FromDayNumberInverts(d);
    NonnegativeQuotient(ticks, 10);
    DivUnique(ticks, 10, span, 0);
    DayAndRest(days, t.Micros(), span);
    SpanTimeIsTime(span);
    TimeIsUnique(t, SpanTime(span));
    FromDayNumberIsDate(DayNumber(d));
  }

  lemma NegativeTicksReturn(d: Date, t: TimeOfDay)
    requires IsDate(d) && t.IsTime() && Ticks(d, t) < 0
    ensures SpanTime(Quotient(Ticks(d, t), 10)) == t <==> t.Micros() == 0
  {
    hide DayNumber, SpanTime, Quotient;
    var days, ticks := DayNumber(d) - 578042, Ticks(d, t);
    var span := days * 86400000000 + t.Micros();
    Negated(-ticks, 10);
    NonnegativeQuotient(-ticks, 10);
    DivUnique(-ticks, 10, -span, 0);
    NegativeSpan(span, days, t);
  }

  lemma NegativeSpan(span: int, days: int, t: TimeOfDay)
    requires t.IsTime() && span == days * 86400000000 + t.Micros() && span < 0
    ensures SpanTime(span) == t <==> t.Micros() == 0
  {
    hide SpanTime;
    SpanTimeOfNegative(span);
    if t.Micros() == 0 {
      DivUnique(-span, 86400000000, -days, 0);
    }
  }

  lemma YearLength(d: Date)
    requires IsDate(d)
    ensures 1 <= DayOfYear(d) <= 366
  {
    YearStartNext(d.year - 1);
  }

  lemma WeekdayInJanuary(year: int, day: int)
    requires 1 <= day <= 31
    ensures Weekday(Date(year, 1, day)) == (Weekday(Date(year, 1, 1)) + day - 1) % 7
  {
    hide DayNumber;
    DayNumberInMonth(year, 1, day);
  }

  const MIDNIGHT := TimeOfDay(0, 0, 0, 0, 0)

  function WeekdayOfTicks(ticks: int): int {
    (578042 + ticks / 864000000000 + 2) % 7
  }

  predicate HasWeekday(ticks: int) {
    ticks / 864000000000 >= -2299162
  }

  /** What `dayOfWeek` computes from a Julian day that is off by an error. */
  function WeekdayFrom(ticks: int, off: real): int {
    Remainder((JulianDay(ticks) + off + 1.5).Floor, 7)
  }

  /** The error does not take the tick count over a midnight. */
  predicate StaysInDay(ticks: int, off: real) {
    0.0 <= (ticks % 864000000000) as real / 864000000000.0 + off < 1.0
  }

  lemma FractionOfDay(ticks: int)
    ensures var f := (ticks % 864000000000) as real / 864000000000.0;
            0.0 <= f < 1.0 && ticks as real / 864000000000.0 == (ticks / 864000000000) as real + f
  {
    var q, r := ticks / 864000000000, ticks % 864000000000;
    assert ticks == 864000000000 * q + r;
    assert ticks as real == 864000000000.0 * q as real + r as real;
  }

  /** The weekday is right exactly if the error does not take the day over a midnight, and the Julian day is not
      negative or the day is a Sunday. */
  lemma WeekdayIff(ticks: int, off: real)
    requires -1.0 < off < 1.0
    ensures WeekdayFrom(ticks, off) == WeekdayOfTicks(ticks)
       <==> StaysInDay(ticks, off) && (HasWeekday(ticks) || WeekdayOfTicks(ticks) == 0)
  {
    var f, q := (ticks % 864000000000) as real / 864000000000.0, ticks / 864000000000;
    FractionOfDay(ticks);
    FloorShift(f + off, q + 2299162);
    assert JulianDay(ticks) + off + 1.5 == f + off + (q + 2299162) as real;
    WeekdayShifted(q + 2299162, (f + off).Floor);
    assert WeekdayOfTicks(ticks) == (q + 2299162) % 7;
  }

  lemma WeekdayShifted(k: int, e: int)
    requires -1 <= e <= 1
    ensures Remainder(k + e, 7) == k % 7 <==> e == 0 && (k >= 0 || k % 7 == 0)
  {
    if k + e < 0 {
      var n := -(k + e);
      assert Remainder(k + e, 7) == -(n % 7);
    }
  }

  /** The nearest double: those between 2^21 and 2^22, where the Julian days of these centuries are, are multiples
      of 2^-31. */
  function Nearest(julianDay: real): real {
    (julianDay * 2147483648.0 + 0.5).Floor as real / 2147483648.0
  }

  /** Sunday, 8 November 2020, ten microseconds before midnight: the nearest double is already on Monday. */
  const LATE_READING: int64 := 138241727999999900

  lemma LateReading()
    ensures WeekdayOfTicks(LATE_READING) == 0
    ensures WeekdayFrom(LATE_READING, Nearest(JulianDay(LATE_READING)) - JulianDay(LATE_READING)) == 1
  {
    var midnight := 160002.0 + 2299160.5;
    var x := JulianDay(LATE_READING) * 2147483648.0 + 0.5;
    assert JulianDay(LATE_READING) == midnight - 100.0 / 864000000000.0;
    assert midnight * 2147483648.0 == (2459162 * 2147483648 + 1073741824) as real;
    assert (2459162 * 2147483648 + 1073741824) as real <= x < (2459162 * 2147483648 + 1073741824) as real + 1.0;
    assert x.Floor == 2459162 * 2147483648 + 1073741824;
    assert Nearest(JulianDay(LATE_READING)) == midnight;
    assert (midnight + 1.5).Floor == 2459164;
  }

  /** At midnights there is no error: the tick count and its days are doubles. */
  lemma MidnightIsDouble(days: int)
    requires -0x800_0000 < days < 0x800_0000
    ensures days * 864000000000 == days * 52734375 * 0x4000 && -0x20_0000_0000_0000 < days * 52734375 < 0x20_0000_0000_0000
  {
  }

  /** `dayOfWeek` is the calendar's weekday, whatever the time of day. */
  lemma WeekdayOfDate(d: Date, t: TimeOfDay)
    requires IsDate(d) && t.IsTime()
    ensures WeekdayOfTicks(Ticks(d, t)) == Weekday(d)
  {
    hide DayNumber, TimeOfDay.Micros, TimeOfDay.IsTime;
    TimeInDay(t);
    DivUnique(Ticks(d, t), 864000000000, DayNumber(d) - 578042, 10 * t.Micros());
  }

  lemma WeekdayInRange(d: Date)
    requires IsDate(d)
    ensures 0 <= Weekday(d) <= 6
  {
  }

  lemma WeekdayBefore(first: int, target: int, baseDay: int)
    requires 0 <= first <= 6 && 0 <= target <= 6
    requires 1 <= baseDay <= 1 + (target - first) % 7 && (first + baseDay - 1) % 7 != target
    ensures baseDay < 1 + (target - first) % 7
  {
  }

  lemma WeekArithmetic(first: int, firstDayOfWeek: int, baseDay: int, doy: int)
    requires 0 <= first <= 6 && 0 <= firstDayOfWeek <= 6 && doy >= 1
    requires 1 <= baseDay <= 7 && firstDayOfWeek == (first + baseDay - 1) % 7
    ensures (if doy < baseDay then 0 else (doy - baseDay) / 7 + 1) + (if baseDay <= 4 then 0 else 1)
         == (doy - (4 - ((first + 3) % 7 - firstDayOfWeek) % 7)) / 7 + 1
  {
    assert baseDay - 1 == (firstDayOfWeek - first) % 7;
    var start := 4 - ((first + 3) % 7 - firstDayOfWeek) % 7;
    assert start == if baseDay <= 4 then baseDay else baseDay - 7;
  }

  // `normalize`

  /** Stored in a `short`. */
  function ToInt16(n: int): (r: int16)
    ensures -0x8000 <= n < 0x1_8000 ==> r == if n < 0x8000 then n else n - 0x1_0000
  {
    (n + 0x8000) % 0x1_0000 - 0x8000
  }

  /** What `checkLimit` takes out of a field, in units of the next. */
  function Carry(n: int, limit: int): (c: int)
    requires limit > 0
    ensures 0 <= c && (n < limit ==> c == 0)
  {
    if n >= limit then n / limit else 0
  }

  /** The fields with all that is carried into them, before it is taken out again. */
  function WithCarries(t: TimeOfDay): TimeOfDay {
    var millisecond := t.millisecond + Carry(t.microsecond, 1000);
    var second := t.second + Carry(millisecond, 1000);
    var minute := t.minute + Carry(second, 60);
    TimeOfDay(t.hour + Carry(minute, 60), minute, second, millisecond, t.microsecond)
  }

  function DayWithCarry(day: int, t: TimeOfDay): int {
    day + Carry(WithCarries(t).hour, 24)
  }

  /** No carry overflows its field. */
  predicate TimeFits(day: int, t: TimeOfDay) {
    var u := WithCarries(t);
    u.millisecond < 0x8000 && u.second < 0x8000 && u.minute < 0x8000 && u.hour < 0x8000 && DayWithCarry(day, t) < 0x8000
  }

  predicate Fits(d: Date, t: TimeOfDay)
    requires 1 <= d.month <= 12
  {
    TimeFits(d.day, t) && !(d.year == 0x7FFF && d.month == 12 && DayWithCarry(d.day, t) > 31)
  }

  /** The carries leave nothing negative, and no more than two months of days. */
  predicate Normalizes(d: Date, t: TimeOfDay)
    requires 1 <= d.month <= 12
  {
    var u, (y, m) := WithCarries(t), MonthAfter(d.year, d.month);
    && u.hour >= 0 && u.minute >= 0 && u.second >= 0 && u.millisecond >= 0 && u.microsecond >= 0
    && 1 <= DayWithCarry(d.day, t) <= DaysOfMonth(d.year, d.month) + DaysOfMonth(y, m)
  }

  /** `checkLimit`. */
  function Limited(lower: int, higher: int, limit: int): (int, int16)
    requires limit > 0
  {
    (lower - limit * Carry(lower, limit), ToInt16(higher + Carry(lower, limit)))
  }

  /** The time fields and the day that `normalize` leaves, and the date once a month has been carried. */
  function CarriedSeconds(t: TimeOfDay): TimeOfDay {
    var (microsecond, milliseconds) := Limited(t.microsecond, t.millisecond, 1000);
    var (millisecond, seconds) := Limited(milliseconds, t.second, 1000);
    var (second, minutes) := Limited(seconds, t.minute, 60);
    TimeOfDay(t.hour, minutes, second, millisecond, microsecond)
  }

  function CarriedTime(day: int, t: TimeOfDay): (int16, TimeOfDay) {
    var u := CarriedSeconds(t);
    var (minute, hours) := Limited(u.minute, t.hour, 60);
    var (hour, days) := Limited(hours, day, 24);
    (days, u.(hour := hour, minute := minute))
  }

  function CarriedMonth(d: Date): Date
    requires 1 <= d.month <= 12
  {
    var day := d.day - DaysOfMonth(d.year, d.month);
    if day <= 0 then d
    else if d.month == 12 then Date(ToInt16(d.year + 1), 1, day)
    else Date(d.year, d.month + 1, day)
  }

  function Normalized(d: Date, t: TimeOfDay): (Date, TimeOfDay)
    requires 1 <= d.month <= 12
  {
    var (day, u) := CarriedTime(d.day, t);
    (CarriedMonth(d.(day := day)), u)
  }

  predicate FieldsFit(d: Date, t: TimeOfDay) {
    && -0x8000 <= d.year < 0x8000 && 1 <= d.month <= 12 && -0x8000 <= d.day < 0x8000
    && -0x8000 <= t.hour < 0x8000 && -0x8000 <= t.minute < 0x8000 && -0x8000 <= t.second < 0x8000
    && -0x8000 <= t.millisecond < 0x8000 && -0x8000 <= t.microsecond < 0x8000
  }

  lemma StaysInt16(n: int16)
    ensures ToInt16(n + 0) == n
  {
  }

  /** One step keeps lower + limit * higher unless the higher field overflows. */
  lemma LimitedKeeps(lower: int16, higher: int16, limit: int)
    requires limit > 0
    ensures var (l, h) := Limited(lower, higher, limit);
            && -0x8000 <= l < limit && (0 <= l <==> 0 <= lower) && l == lower - limit * Carry(lower, limit)
            && h == higher + Carry(lower, limit) - if higher + Carry(lower, limit) < 0x8000 then 0 else 0x1_0000
  {
    if lower >= limit {
      MulAtLeast(lower / limit, limit);
      assert lower == limit * (lower / limit) + lower % limit;
    }
  }

  lemma CarriedSecondsKeep(t: TimeOfDay)
    requires FieldsFit(Date(0, 1, 1), t)
    ensures var u, v := WithCarries(t), CarriedSeconds(t);
            var fits := u.millisecond < 0x8000 && u.second < 0x8000 && u.minute < 0x8000;
            && v.hour == t.hour && -0x8000 <= v.minute < 0x8000 && v.Micros() <= t.Micros() && (v.Micros() == t.Micros() <==> fits)
            && (fits ==>
              && v.minute == u.minute && v.second < 60 && v.millisecond < 1000 && v.microsecond < 1000
              && (v.second >= 0 <==> u.second >= 0) && (v.millisecond >= 0 <==> u.millisecond >= 0)
              && (v.microsecond >= 0 <==> u.microsecond >= 0))
  {
    hide Limited, Carry, ToInt16;
    LimitedKeeps(t.microsecond, t.millisecond, 1000);
    var (microsecond, milliseconds) := Limited(t.microsecond, t.millisecond, 1000);
    LimitedKeeps(milliseconds, t.second, 1000);
    var (millisecond, seconds) := Limited(milliseconds, t.second, 1000);
    LimitedKeeps(seconds, t.minute, 60);
  }

  lemma CarriedTimeKeeps(day: int16, t: TimeOfDay)
    requires FieldsFit(Date(0, 1, 1), t)
    ensures var u, (day', v) := WithCarries(t), CarriedTime(day, t);
            var before, after := day * 86400000000 + t.Micros(), day' * 86400000000 + v.Micros();
            && after <= before && (after == before <==> TimeFits(day, t))
            && (TimeFits(day, t) ==>
              && day' == DayWithCarry(day, t)
              && (v.IsTime() <==> u.hour >= 0 && u.minute >= 0 && u.second >= 0 && u.millisecond >= 0 && u.microsecond >= 0))
  {
    hide Limited, Carry, ToInt16, CarriedSeconds;
    CarriedSecondsKeep(t);
    var u := CarriedSeconds(t);
    LimitedKeeps(u.minute, t.hour, 60);
    var (minute, hours) := Limited(u.minute, t.hour, 60);
    LimitedKeeps(hours, day, 24);
  }

  lemma CarriedMonthKeeps(d: Date)
    requires 1 <= d.month <= 12 && -0x8000 <= d.year < 0x8000
    ensures var d' := CarriedMonth(d);
            var past, past' := DayNumberPast(d.year, d.month, d.day), DayNumberPast(d'.year, d'.month, d'.day);
            past' <= past && (past' == past <==> !(d.year == 0x7FFF && d.month == 12 && d.day > 31))
  {
    DayNumberAfterMonth(d.year, d.month);
  }

  /** `normalize` keeps the instant exactly if no carry overflows, and then the fields end in range exactly if none
      was negative with its carries and the days fit two months. */
  lemma NormalizedIff(d: Date, t: TimeOfDay)
    requires FieldsFit(d, t)
    ensures var (d', t') := Normalized(d, t);
            && 1 <= d'.month <= 12
            && (DayNumberPast(d'.year, d'.month, d'.day) * 86400000000 + t'.Micros()
                == DayNumberPast(d.year, d.month, d.day) * 86400000000 + t.Micros()
                <==> Fits(d, t))
            && (Fits(d, t) ==> (IsDate(d') && t'.IsTime() <==> Normalizes(d, t)) && d.year <= d'.year <= d.year + 1)
  {
    hide DayNumber, DayNumberPast, WithCarries, DayWithCarry, TimeFits, CarriedTime, TimeOfDay.Micros, TimeOfDay.IsTime;
    var (day, u) := CarriedTime(d.day, t);
    CarriedTimeKeeps(d.day, t);
    InstantMoves(d.year, d.month, d.day, day, t, u);
    CarriedMonthKeeps(d.(day := day));
  }

  class DateTime {
    var utcTime: int64
    var year: int16
    var month: int16
    var day: int16
    var hour: int16
    var minute: int16
    var second: int16
    var millisecond: int16
    var microsecond: int16

    /** `DateTime(Timestamp)`, and `DateTime()` with the clock reading as the argument. */
    constructor At(ticks: int64)
      ensures utcTime == ticks && IsOf(ticks) && Day() == DateOfTicks(ticks)
      ensures ticks >= 0 ==> Wellformed() && Day() == DayOfTicks(ticks)
    {
      new;
      FromTicks(ticks);
    }

    /** The constructor from calendar fields. */
    constructor Of(d: Date, t: TimeOfDay)
      requires IsValid(d, t)
      ensures Day() == d && Time() == t && utcTime == Ticks(d, t)
    {
      new;
      Assign(d.year, d.month, d.day, t.hour, t.minute, t.second, t.millisecond, t.microsecond);
    }

    function Day(): Date
      reads this
    {
      Date(year, month, day)
    }

    function Time(): TimeOfDay
      reads this
    {
      TimeOfDay(hour, minute, second, millisecond, microsecond)
    }

    ghost predicate Wellformed()
      reads this
    {
      IsDate(Day()) && Time().IsTime()
    }

    /** The fields as one number: microseconds since 1 March of year 0. */
    ghost function Micros(): int
      requires 1 <= month <= 12
      reads this
    {
      DayNumberPast(year, month, day) * 86400000000 + Time().Micros()
    }

    /** `checkLimit`: whole limits move from the lower field to the higher one, which may overflow. */
    static method CheckLimit(lower: int16, higher: int16, limit: int16) returns (lower': int16, higher': int16)
      requires 0 < limit
      ensures (lower', higher') == Limited(lower, higher, limit)
      ensures lower' < limit && (0 <= lower' <==> 0 <= lower)
      ensures higher + Carry(lower, limit) < 0x8000 ==> lower' + limit * (higher' - higher) == lower
    {
      LimitedKeeps(lower, higher, limit);
      hide ToInt16;
      lower', higher' := lower, higher;
      if lower >= limit {
        assert lower == limit * (lower / limit) + lower % limit;
        higher' := ToInt16(higher + lower / limit);
        lower' := lower % limit;
      } else {
        StaysInt16(higher);
      }
    }

    /** `normalize`: carries every field, and at most one month. */
    method Normalize()
      requires 1 <= month <= 12
      modifies this`year, this`month, this`day, this`hour, this`minute, this`second, this`millisecond, this`microsecond
      ensures (Day(), Time()) == Normalized(old(Day()), old(Time()))
      ensures 1 <= month <= 12 && (Micros() == old(Micros()) <==> Fits(old(Day()), old(Time())))
      ensures Fits(old(Day()), old(Time())) ==> (Wellformed() <==> Normalizes(old(Day()), old(Time())))
      ensures Fits(old(Day()), old(Time())) ==> old(year) <= year <= old(year) + 1
    {
      hide DayNumberPast, Fits, Normalizes, TimeOfDay.Micros, TimeOfDay.IsTime, CarriedTime, CarriedMonth;
      NormalizedIff(Day(), Time());
      CarryTime();
      CarryMonth();
    }

    method CarryTime()
      modifies this`day, this`hour, this`minute, this`second, this`millisecond, this`microsecond
      ensures (day, Time()) == CarriedTime(old(day), old(Time()))
    {
      hide Limited;
      microsecond, millisecond := CheckLimit(microsecond, millisecond, 1000);
      millisecond, second := CheckLimit(millisecond, second, 1000);
      second, minute := CheckLimit(second, minute, 60);
      minute, hour := CheckLimit(minute, hour, 60);
      hour, day := CheckLimit(hour, day, 24);
    }

    method CarryMonth()
      requires 1 <= month <= 12
      modifies this`year, this`month, this`day
      ensures Day() == CarriedMonth(old(Day()))
    {
      if day > DaysOfMonth(year, month) {
        day := day - DaysOfMonth(year, month);
        month := month + 1;
        if month > 12 {
          year := ToInt16(year + 1);
          month := month - 12;
        }
      }
    }

    /** `computeGregorian`: the fields become the microsecond nearest to the Julian day. */
    method ComputeGregorian(julianDay: real)
      requires InRange(julianDay)
      modifies this`year, this`month, this`day, this`hour, this`minute, this`second, this`millisecond, this`microsecond
      ensures Wellformed() && Micros() == NearestMicros(julianDay) && -30000 <= year <= 32601
    {
      hide FromDayNumber, FromMarchYear, MarchYearOf, DayNumber, Normalized;
      var z := (julianDay - 1721118.5).Floor;
      var r := julianDay - 1721118.5 - z as real;
      YearFits(z);
      FromDayNumberIsDate(z);
      ComputeDate(z, r);
      ComputeFraction(r);
      DayNumberInMonth(year, month, day);
      FloorShift(r * 86400000000.0 + 0.5, z * 86400000000);
      Normalize();
    }

    /** The upper part: the date fields from the day and the fraction of a day. */
    method ComputeDate(z: int, r: real)
      requires FIRST_DAY <= z <= LAST_DAY && 0.0 <= r < 1.0
      modifies this`year, this`month, this`day
      ensures Day() == FromDayNumber(z)
    {
      hide FromDayNumber;
      GregorianOfReal(z, r);
      YearFits(z);
      var g := z as real - 0.25;
      var a := (g / 36524.25).Floor;
      var b := a - (a as real / 4.0).Floor;
      year := ((b as real + g) / 365.25).Floor;
      var c := b + z - (365.25 * year as real).Floor;
      month := ((5 * c + 456) as real / 153.0).Floor;
      var dday := (c - ((153.0 * month as real - 457.0) / 5.0).Floor) as real + r;
      day := dday.Floor;
      if month > 12 {
        year := year + 1;
        month := month - 12;
      }
    }

    /** The lower part of `computeGregorian`: the time fields from the fraction of a day. */
    method ComputeFraction(fraction: real)
      requires 0.0 <= fraction < 1.0
      modifies this`hour, this`minute, this`second, this`millisecond, this`microsecond
      ensures 0 <= hour < 24 && 0 <= minute < 60 && 0 <= second < 60 && 0 <= millisecond < 1000 && 0 <= microsecond <= 1000
      ensures Time().Micros() == (fraction * 86400000000.0 + 0.5).Floor
    {
      TimeOfFraction(fraction);
      var r := fraction;
      r := r * 24.0;
      hour := r.Floor;
      r := (r - r.Floor as real) * 60.0;
      minute := r.Floor;
      r := (r - r.Floor as real) * 60.0;
      second := r.Floor;
      r := (r - r.Floor as real) * 1000.0;
      millisecond := r.Floor;
      r := (r - r.Floor as real) * 1000.0;
      microsecond := (r + 0.5).Floor;
    }

    /** `computeDaytime`: the time of day comes from the tick count, and the date is moved by a day when
        the Julian day had crossed midnight. */
    method ComputeDaytime()
      requires Wellformed() && -0x8000 < year < 0x7FFF
      modifies this`year, this`month, this`day, this`hour, this`minute, this`second, this`millisecond, this`microsecond
      ensures Time() == SpanTime(Quotient(utcTime, 10))
      ensures Day() == RepairedDay(old(Day()), SpanHours(Quotient(utcTime, 10)), old(hour))
    {
      hide Remainder, Quotient;
      var span := Quotient(utcTime, 10);
      SpanFits(span);
      var hour' := SpanHours(span);
      if hour' == 23 && hour == 0 {
        day := day - 1;
        if day == 0 {
          month := month - 1;
          if month == 0 {
            month := 12;
            year := year - 1;
          }
          day := DaysOfMonth(year, month);
        }
      } else if hour' == 0 && hour == 23 {
        day := day + 1;
        if day > DaysOfMonth(year, month) {
          month := month + 1;
          if month > 12 {
            month := 1;
            year := year + 1;
          }
          day := 1;
        }
      }
      hour := hour';
      minute := SpanMinutes(span);
      second := SpanSeconds(span);
      millisecond := SpanMilliseconds(span);
      microsecond := SpanMicroseconds(span);
    }

    /** What the constructors and operators do after setting `_utcTime`: the time of day is that of the tick count,
        and the date is repaired. From tick 0 on both are exact as long as the Julian day is less than an hour off. */
    method Recompute(julianDay: real)
      requires InRange(julianDay)
      modifies this`year, this`month, this`day, this`hour, this`minute, this`second, this`millisecond, this`microsecond
      ensures Time() == SpanTime(Quotient(utcTime, 10))
      ensures Day() == Repaired(NearestMicros(julianDay), SpanHours(Quotient(utcTime, 10)))
      ensures 0 <= utcTime && IsNear(julianDay, utcTime) ==>
        Wellformed() && Day() == DayOfTicks(utcTime) && Time().Micros() == utcTime / 10 % 86400000000
    {
      hide DayNumber, Quotient, SpanHours, SpanMinutes, SpanSeconds, SpanMilliseconds, SpanMicroseconds, RepairedDay, Repaired,
           DayOfTicks, NearestMicros, IsNear;
      ComputeGregorian(julianDay);
      ghost var d, t := Day(), Time();
      DayNumberInMonth(year, month, day);
      RepairedFrom(d, t, NearestMicros(julianDay), SpanHours(Quotient(utcTime, 10)));
      ComputeDaytime();
      if 0 <= utcTime && IsNear(julianDay, utcTime) {
        RepairedIsExact(utcTime, julianDay);
      }
    }

    /** `operator=(Timestamp)`, with the Julian day computed exactly. */
    method FromTicks(ticks: int64)
      modifies this
      ensures utcTime == ticks && IsOf(ticks) && Day() == DateOfTicks(ticks)
      ensures ticks >= 0 ==> Wellformed() && Day() == DayOfTicks(ticks) && Time().Micros() == ticks / 10 % 86400000000
      ensures IsMidnight(ticks) ==> Day() == MidnightDay(ticks)
    {
      hide DayNumber, Quotient, SpanTime, Repaired, DayOfTicks, NearestMicros, IsNear, InRange, IsMidnight, MidnightDay, KeepsInstant;
      utcTime := ticks;
      ExactJulianDay(ticks);
      Recompute(JulianDay(ticks));
      FieldsOfTicks(ticks);
      DayNumberInMonth(year, month, day);
      if IsMidnight(ticks) {
        MidnightFields(ticks, Day());
      }
    }

    /** The fields belong to a tick count: the time of day is made of its parts, and the fields name its microsecond
        if they keep the instant, and else one a day earlier. */
    ghost predicate IsOf(ticks: int)
      reads this
    {
      && IsDate(Day()) && Time() == SpanTime(Quotient(ticks, 10))
      && Micros() == MicrosOfTicks(ticks) - if KeepsInstant(ticks) then 0 else 86400000000
    }

    /** `assign`. */
    method Assign(year': int16, month': int16, day': int16, hour': int16, minute': int16, second': int16,
                  millisecond': int16, microsecond': int16)
      requires IsValid(Date(year', month', day'), TimeOfDay(hour', minute', second', millisecond', microsecond'))
      modifies this
      ensures Day() == Date(year', month', day')
      ensures Time() == TimeOfDay(hour', minute', second', millisecond', microsecond')
      ensures utcTime == Ticks(Day(), Time())
    {
      hide DayNumber;
      ToUtcTimeIsExact(Date(year', month', day'));
      TicksFit(Date(year', month', day'), TimeOfDay(hour', minute', second', millisecond', microsecond'));
      utcTime := ToUtcTime(ToJulianDay(year', month', day'))
                 + 10 * (hour' * 3600000000 + minute' * 60000000 + second' * 1000000 + millisecond' * 1000 + microsecond');
      year, month, day := year', month', day';
      hour, minute, second, millisecond, microsecond := hour', minute', second', millisecond', microsecond';
    }

    /** `operator+=`, with the Julian day computed exactly. */
    method Add(span: int64)
      requires -0x8000_0000_0000_0000 <= 10 * span < 0x8000_0000_0000_0000
      requires -0x8000_0000_0000_0000 <= utcTime + 10 * span < 0x8000_0000_0000_0000
      modifies this
      ensures utcTime == old(utcTime) + 10 * span && IsOf(utcTime)
      ensures utcTime >= 0 ==> Wellformed() && Day() == DayOfTicks(utcTime) && Time().Micros() == utcTime / 10 % 86400000000
    {
      FromTicks(utcTime + span * 10);
    }

    /** `dayOfWeek`, on a Julian day that is off by an error: right exactly if the error does not take it over a
        midnight, and the Julian day is not negative or the day is a Sunday. */
    method DayOfWeek(off: real) returns (weekday: int)
      ensures weekday == WeekdayFrom(utcTime, off)
      ensures -1.0 < off < 1.0 ==>
        (weekday == WeekdayOfTicks(utcTime)
         <==> StaysInDay(utcTime, off) && (HasWeekday(utcTime) || WeekdayOfTicks(utcTime) == 0))
    {
      hide StaysInDay, HasWeekday, WeekdayOfTicks;
      if -1.0 < off < 1.0 { WeekdayIff(utcTime, off); }
      weekday := Remainder((JulianDay(utcTime) + off + 1.5).Floor, 7);
    }

    /** `dayOfYear`. */
    method DayOfYear() returns (doy: int)
      requires IsDate(Day())
      ensures doy == Calendar.DayOfYear(Day()) && 1 <= doy <= 366
    {
      hide DayNumber;
      doy := 0;
      var m := 1;
      while m < month
        invariant 1 <= m <= month && doy == DayNumber(Date(year, m, 1)) - DayNumber(Date(year, 1, 1))
      {
        DayNumberAfterMonth(year, m);
        doy := doy + DaysOfMonth(year, m);
        m := m + 1;
      }
      DayNumberInMonth(year, month, day);
      doy := doy + day;
      YearLength(Day());
    }

    /** The first loop of `week`: the first day in January that falls on the given weekday. The days are asked for at
        midnight, where the Julian day has no error. */
    method FirstInJanuary(firstDayOfWeek: int) returns (baseDay: int16)
      requires 0 <= firstDayOfWeek <= 6 && 0 <= year <= 9999
      ensures 1 <= baseDay <= 7 && Weekday(Date(year, 1, baseDay)) == firstDayOfWeek
    {
      hide Weekday, WeekdayOfTicks, Ticks;
      baseDay := 1;
      var probe := new DateTime.Of(Date(year, 1, baseDay), MIDNIGHT);
      TicksFit(Date(year, 1, 1), MIDNIGHT);
      var weekday := probe.DayOfWeek(0.0);
      WeekdayOfDate(Date(year, 1, 1), MIDNIGHT);
      ghost var first := weekday;
      WeekdayInRange(Date(year, 1, 1));
      while weekday != firstDayOfWeek
        invariant 1 <= baseDay <= 1 + (firstDayOfWeek - first) % 7
        invariant weekday == Weekday(Date(year, 1, baseDay)) == (first + baseDay - 1) % 7
        decreases 10 - baseDay
      {
        WeekdayBefore(first, firstDayOfWeek, baseDay);
        baseDay := baseDay + 1;
        probe := new DateTime.Of(Date(year, 1, baseDay), MIDNIGHT);
        TicksFit(Date(year, 1, baseDay), MIDNIGHT);
        weekday := probe.DayOfWeek(0.0);
        WeekdayOfDate(Date(year, 1, baseDay), MIDNIGHT);
        WeekdayInJanuary(year, baseDay);
      }
    }

    /** `week`: week 1 is the week that contains 4 January, as the interface documents. */
    method Week(firstDayOfWeek: int) returns (week: int)
      requires 0 <= firstDayOfWeek <= 6 && IsValid(Day(), Time())
      ensures week == WeekContaining4January(Day(), firstDayOfWeek)
    {
      hide Weekday, DayNumber;
      var baseDay := FirstInJanuary(firstDayOfWeek);
      var doy := this.DayOfYear();
      var offs := if baseDay <= 4 then 0 else 1;
      WeekdayInRange(Date(year, 1, 1));
      WeekdayInJanuary(year, 4);
      WeekdayInJanuary(year, baseDay);
      WeekArithmetic(Weekday(Date(year, 1, 1)), firstDayOfWeek, baseDay, doy);
      if doy < baseDay {
        week := offs;
      } else {
        week := (doy - baseDay) / 7 + 1 + offs;
      }
    }
  }

  /** Fields to ticks and back. The fields come back exactly when the instant is not before 15 October
      1582, or is a midnight: before that day the parts of the tick count are negative. */
  method FieldsThroughTicks(date: DateTime, copy: DateTime, d: Date, t: TimeOfDay)
    requires IsValid(d, t) && date != copy
    modifies date, copy
    ensures date.Day() == d && date.Time() == t && copy.utcTime == date.utcTime
    ensures (copy.Day() == d && copy.Time() == t) <==> (date.utcTime >= 0 || t.Micros() == 0)
  {
    hide DayNumber, SpanTime, Quotient, MidnightDay, DayOfTicks, IsMidnight, Ticks;
    TicksFit(d, t);
    date.Assign(d.year, d.month, d.day, t.hour, t.minute, t.second, t.millisecond, t.microsecond);
    copy.FromTicks(date.utcTime);
    if Ticks(d, t) >= 0 {
      TicksReturn(d, t);
    } else {
      NegativeTicksReturn(d, t);
    }
    if t.Micros() == 0 {
      MidnightReturns(d, t);
    }
  }
}
