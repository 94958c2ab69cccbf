/** The Date header of an HTTP response (src/http/src/response.cpp): an instant printed and read back. */
module DateHeader {
  import opened CArithmetic
  import opened Calendar
  import opened DateTimes
  import opened Numerals
  import opened DateText

  /** What `setDate` writes for a tick count, with some weekday. */
  function HeaderOf(ticks: int, w: WeekdayIndex): string {
    FormatText(HTTP_FORMAT, DateOfTicks(ticks), SpanTime(Quotient(ticks, 10)), w, UTC)
  }

  datatype Instant = Instant(ticks: int) | Unreadable

  /** What `getDate` makes of a header. */
  function InstantOf(text: string): Instant {
    match ParseAny(text)
    case DateRead(d, t, _) => Instant(Ticks(d, t))
    case Invalid => Unreadable
  }

  /** Seconds from tick 0, the fraction cut off. */
  function WholeSeconds(ticks: int): int {
    Quotient(ticks, 10000000)
  }

  // Years

  lemma {:induction false} YearStartGrows(a: int, b: int)
    requires a <= b
    ensures YearStart(b) - YearStart(a) >= 365 * (b - a)
    decreases b - a
  {
    if a < b {
      YearStartGrows(a, b - 1);
      YearStartNext(b - 1);
    }
  }

  lemma YearsApart(d: Date, year: int)
    requires IsDate(d) && IsDate(d.(year := year)) && year != d.year
    ensures var n, m := DayNumber(d), DayNumber(d.(year := year)); n - m >= 365 || m - n >= 365
  {
    var other := d.(year := year);
    if d.year < year { YearStartGrows(MarchYear(d), MarchYear(other)); } else { YearStartGrows(MarchYear(other), MarchYear(d)); }
    hide YearStart;
  }

  /** The instant is at most a day away from the midnight of its date. */
  lemma NearItsDate(ticks: int64)
    ensures var n := (DayNumber(DateOfTicks(ticks)) - 578042) * 864000000000;
            -2 * 864000000000 <= WholeSeconds(ticks) * 10000000 - n <= 2 * 864000000000
  {
    hide DayNumber, DateOfTicks, SpanTime, TimeOfDay.Micros, KeepsInstant;
    FieldsOfTicks(ticks);
    if ticks >= 0 {
      SpanTimeIsTime(Quotient(ticks, 10));
    } else {
      var _, rest := NegativeTicks(ticks);
    }
  }

  // Times

  /** The time of day as it is read: without its sign, and to the second. */
  function TimeShown(t: TimeOfDay): TimeOfDay {
    TimeOfDay(Size(t.hour), Size(t.minute), Size(t.second), 0, 0)
  }

  lemma TimeOfPositive(ticks: int64)
    requires ticks >= 0
    ensures Ticks(DateOfTicks(ticks), TimeShown(SpanTime(Quotient(ticks, 10)))) == WholeSeconds(ticks) * 10000000
  {
    hide DayNumber, DateOfTicks, SpanTime;
    FieldsOfTicks(ticks);
    var d, t := DateOfTicks(ticks), SpanTime(Quotient(ticks, 10));
    SpanTimeIsTime(Quotient(ticks, 10));
    var seconds := (DayNumber(d) - 578042) * 86400 + t.hour * 3600 + t.minute * 60 + t.second;
    DivTwice(ticks, 10, 1000000, 10000000);
    DivUnique(ticks / 10, 1000000, seconds, t.millisecond * 1000 + t.microsecond);
  }

  lemma NegativeTime(ticks: int64) returns (days: int, seconds: int)
    requires ticks < 0
    ensures var t := SpanTime(Quotient(ticks, 10));
            && 0 <= seconds < 86400 && WholeSeconds(ticks) == -days * 86400 - seconds
            && TimeShown(t).IsTime() && TimeShown(t).Micros() == seconds * 1000000
            && MicrosOfTicks(ticks) - t.Micros() == (578042 - days) * 86400000000
            && (SpanHours(Quotient(ticks, 10)) == 0 <==> seconds < 3600)
  {
    hide SpanTime;
    var t, n := SpanTime(Quotient(ticks, 10)), -(ticks as int);
    var rest;
    days, rest := NegativeTicks(ticks);
    NegativeParts(Quotient(ticks, 10), t);
    seconds := -(t.hour * 3600 + t.minute * 60 + t.second);
    Negated(n, 10);
    Negated(n, 10000000);
    DivTwice(n, 10, 1000000, 10000000);
    DivUnique(n / 10, 1000000, days * 86400 + seconds, rest - seconds * 1000000);
    ExactHour(ticks);
  }

  lemma NegativeParts(span: int, t: TimeOfDay)
    requires span <= 0 && t == SpanTime(span)
    ensures -24 < t.hour <= 0 && -60 < t.minute <= 0 && -60 < t.second <= 0
    ensures -1000 < t.millisecond <= 0 && -1000 < t.microsecond <= 0
  {
    hide SpanHours, SpanMinutes, SpanSeconds, SpanMilliseconds, SpanMicroseconds;
    SpanFits(span);
    if span < 0 { SpanTimeOfNegative(span); } else { SpanTimeIsTime(0); }
  }

  /** Before tick 0 the time is read without its sign: that is right at midnight and at noon only. */
  lemma TimeOfNegative(ticks: int64)
    requires ticks < 0
    ensures Ticks(DateOfTicks(ticks), TimeShown(SpanTime(Quotient(ticks, 10)))) == WholeSeconds(ticks) * 10000000
       <==> WholeSeconds(ticks) % 43200 == 0
  {
    hide DayNumber, DateOfTicks, SpanTime, SpanHours, TimeOfDay.Micros, TimeShown;
    FieldsOfTicks(ticks);
    var days, seconds := NegativeTime(ticks);
    HalfDays(days, seconds);
  }

  lemma HalfDays(days: int, seconds: int)
    requires 0 <= seconds < 86400
    ensures (-days * 86400 - seconds) % 43200 == 0 <==> seconds == 0 || seconds == 43200
  {
    assert -days * 86400 - seconds == (-days * 2) * 43200 - seconds;
  }

  lemma TimeIsShown(ticks: int64)
    ensures var t := SpanTime(Quotient(ticks, 10));
            TimeShown(t).IsTime() && -24 < t.hour < 24 && -60 < t.minute < 60 && -60 < t.second < 60
  {
    hide SpanTime;
    if ticks >= 0 {
      SpanTimeIsTime(Quotient(ticks, 10));
    } else {
      var _, _ := NegativeTime(ticks);
      NegativeParts(Quotient(ticks, 10), SpanTime(Quotient(ticks, 10)));
    }
  }

  // The header

  /** What comes back when the header of a tick count is read. */
  lemma HeaderRead(ticks: int64, w: WeekdayIndex)
    ensures var d, t := DateOfTicks(ticks), TimeShown(SpanTime(Quotient(ticks, 10)));
            var read := d.(year := YearRead(Size(d.year)));
            InstantOf(HeaderOf(ticks, w)) == if IsValid(read, t) then Instant(Ticks(read, t)) else Unreadable
  {
    hide ParseAny, FormatText, DateOfTicks, SpanTime, ReadZone, TzdRFC;
    var d, t := DateOfTicks(ticks), SpanTime(Quotient(ticks, 10));
    TimeIsShown(ticks);
    Styles();
    StyleRead(HTTP_STYLE, d, t, w, UTC);
  }

  /** Read by `getDate`, a header written by `setDate` gives its instant to the second, whatever its weekday, exactly if the year has four
      digits that count and the instant is not before 15 October 1582 or is, to the second, a midnight or a noon. */
  lemma HeaderRoundTrip(ticks: int64, w: WeekdayIndex)
    ensures InstantOf(HeaderOf(ticks, w)) == Instant(WholeSeconds(ticks) * 10000000)
       <==> 1000 <= DateOfTicks(ticks).year <= 9999 && (ticks >= 0 || WholeSeconds(ticks) % 43200 == 0)
  {
    hide DateOfTicks, SpanTime, HeaderOf, InstantOf, DayNumber, TimeShown, WholeSeconds;
    var d, t := DateOfTicks(ticks), TimeShown(SpanTime(Quotient(ticks, 10)));
    var year := YearRead(Size(d.year));
    HeaderRead(ticks, w);
    TimeIsShown(ticks);
    if year == d.year {
      assert d.(year := year) == d;
      if ticks >= 0 { TimeOfPositive(ticks); } else { TimeOfNegative(ticks); }
    } else if IsValid(d.(year := year), t) {
      NearItsDate(ticks);
      YearsApart(d, year);
      TimeInDay(t);
    }
  }

  /** Midnight of 1 January 10000. */
  const END_OF_9999: int := 3074324 * 864000000000

  lemma LaterYears(ticks: int64)
    requires 0 <= ticks < END_OF_9999
    ensures 1000 <= DateOfTicks(ticks).year <= 9999
  {
    hide DateOfTicks, SpanTime, TimeOfDay.Micros;
    var d := DateOfTicks(ticks);
    FieldsOfTicks(ticks);
    SpanTimeIsTime(Quotient(ticks, 10));
    assert 578042 <= DayNumber(d) < 578042 + 3074324;
    if d.year < 1000 {
      YearStartGrows(MarchYear(d), 1000);
    } else if d.year > 9999 {
      YearStartGrows(9999, MarchYear(d));
    }
  }

  /** From tick 0 to the end of the year 9999, then, it always does. */
  lemma HeaderOfLaterInstant(ticks: int64, w: WeekdayIndex)
    requires 0 <= ticks < END_OF_9999
    ensures InstantOf(HeaderOf(ticks, w)) == Instant(WholeSeconds(ticks) * 10000000)
  {
    hide DateOfTicks, HeaderOf, InstantOf;
    LaterYears(ticks);
    HeaderRoundTrip(ticks, w);
  }

  /** The instant a date and a time name in a zone, which says how far they are ahead of Greenwich. */
  function InstantIn(d: Date, t: TimeOfDay, tzd: int): int
    requires IsDate(d)
  {
    Ticks(d, t) - (if tzd == UTC then 0 else tzd * 10000000)
  }

  /** `getDate` drops the zone it has read: a header in another zone than Greenwich's is taken for a different instant,
      by as much as the zone is ahead. */
  lemma ZoneDropped(d: Date, t: TimeOfDay, w: WeekdayIndex, tzd: int)
    requires IsValid(d, t) && d.year >= 1000 && IsPrintableZone(tzd)
    ensures var header, whole := FormatText(HTTP_FORMAT, d, t, w, tzd), t.(millisecond := 0, microsecond := 0);
            && (InstantOf(header) == Instant(InstantIn(d, whole, tzd)) <==> tzd == 0 || tzd == UTC)
            && ParseAny(header) == DateRead(d, whole, if tzd == UTC then 0 else tzd)
  {
    hide ParseAny, FormatText, Ticks, IsPrintableZone, ReadZone, TzdRFC;
    HttpStyle();
    StyleRoundTrip(HTTP_STYLE, d, t, w, tzd);
  }

  /** `setDate`, for an instant whose computed weekday is not negative. */
  method SetDate(ticks: int64, off: real) returns (text: string)
    requires 0 <= WeekdayFrom(ticks, off)
    ensures text == HeaderOf(ticks, Looked(WeekdayFrom(ticks, off)))
  {
    hide DateOfTicks, FormatText, SpanTime, WeekdayFrom, ShowsWeekday;
    var date := new DateTime.At(ticks);
    text := Append("", date, HTTP_FORMAT, UTC, off);
  }

  /** `getDate`. */
  method GetDate(text: string) returns (r: Instant)
    ensures r == InstantOf(text)
  {
    hide ParseAny, DayNumber;
    var read := TryParse(text);
    if read == Invalid { return Unreadable; }
    var date := new DateTime.Of(read.d, read.t);
    r := Instant(date.utcTime);
  }
}
