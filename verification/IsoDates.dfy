/** Dates in the format of ISO 8601, written out: what `DateTimeParser::tryParse` of src/base/src/datetime.cpp makes
    of them, whatever number of digits follows the seconds.
 */
module IsoDates {
  import opened Calendar
  import opened DateText
  import opened DateTimes
  import opened Numerals
  import opened Powers

  predicate AllDigits(text: string) {
    forall i :: 0 <= i < |text| ==> IsDigit(text[i])
  }

  /** Year, month, day, hour and minute, and what follows them. */
  function IsoText(d: Date, t: TimeOfDay, behind: string): string {
    Format0(d.year, 4) + "-" + Format0(d.month, 2) + "-" + Format0(d.day, 2) + "T"
    + Format0(t.hour, 2) + ":" + Format0(t.minute, 2) + behind
  }

  /** Seconds, a point or a comma, the digits of a fraction, and a zone. */
  function SecondsText(second: nat, point: char, digits: string, tzd: int): string {
    ":" + Format0(second, 2) + [point] + digits + TzdISO(tzd)
  }

  function FirstSix(digits: string): (six: string)
    ensures |six| <= 6 && six <= digits
  {
    if |digits| <= 6 then digits else digits[..6]
  }

  /** The microseconds that the digits of a fraction of a second stand for: six of them count. */
  function Microseconds(digits: string): int
    requires AllDigits(digits)
  {
    ValueOf(FirstSix(digits), 0) * Pow(10, 6 - |FirstSix(digits)|)
  }

  // The digits

  lemma ReadInTwo(f: Fields, text: string, millis: int, behind: string, micros: int, rest: string, total: int)
    requires Fraction(text, 3, 0) == (millis, behind) && Fraction(behind, 3, 0) == (micros, rest)
    requires f.millis == 0 && f.micros == 0 && 0 <= millis < 1000 && 0 <= micros < 1000 && total == 1000 * millis + micros
    ensures 0 <= total < 1000000
    ensures ParseFraction(f, text) == Parsed(f.(millis := total / 1000, micros := total % 1000), Skip(IsDigit, rest))
  {
    hide Fraction, Skip;
    assert total / 1000 == millis && total % 1000 == micros;
  }

  /** Three digits for the milliseconds and three for the microseconds; the others are skipped. */
  lemma FractionReads(f: Fields, digits: string, tail: string)
    requires AllDigits(digits) && (tail == "" || !IsDigit(tail[0])) && f.millis == 0 && f.micros == 0
    ensures 0 <= Microseconds(digits) < 1000000
    ensures ParseFraction(f, digits + tail)
         == Parsed(f.(millis := Microseconds(digits) / 1000, micros := Microseconds(digits) % 1000), tail)
  {
    hide Fraction, ValueOf, Pow, ParseFraction, Skip, Microseconds;
    if |digits| <= 3 {
      FractionFills(digits, tail, 3);
      FractionFills("", tail, 3);
      NothingToSkip(IsDigit, tail);
      assert "" + tail == tail;
      FewDigits(digits);
      ReadInTwo(f, digits + tail, ValueOf(digits, 0) * Pow(10, 3 - |digits|), tail, 0, tail, Microseconds(digits));
    } else {
      var six := FirstSix(digits);
      var first, second, dropped := six[..3], six[3..], digits[|six|..];
      assert digits + tail == first + (second + (dropped + tail));
      MoreDigitsRead(first, second, dropped, tail);
      ManyDigits(digits, first, second);
      ReadInTwo(f, digits + tail, ValueOf(first, 0) * Pow(10, 0), second + (dropped + tail),
                ValueOf(second, 0) * Pow(10, 3 - |second|), dropped + tail, Microseconds(digits));
    }
  }

  lemma MoreDigitsRead(first: string, second: string, dropped: string, tail: string)
    requires AllDigits(first) && AllDigits(second) && AllDigits(dropped) && (tail == "" || !IsDigit(tail[0]))
    requires |first| == 3 && |second| <= 3 && (|second| == 3 || dropped == "")
    ensures Fraction(first + (second + (dropped + tail)), 3, 0) == (ValueOf(first, 0) * Pow(10, 0), second + (dropped + tail))
    ensures Fraction(second + (dropped + tail), 3, 0) == (ValueOf(second, 0) * Pow(10, 3 - |second|), dropped + tail)
    ensures Skip(IsDigit, dropped + tail) == tail
  {
    hide Fraction, ValueOf, Pow;
    FractionFills3(first, second + (dropped + tail));
    if dropped == "" {
      assert dropped + tail == tail;
      FractionFills(second, tail, 3);
    } else {
      FractionFills3(second, dropped + tail);
    }
    PrefixIs(IsDigit, dropped, tail);
  }

  lemma FractionFills3(digits: string, tail: string)
    requires |digits| == 3 && AllDigits(digits)
    ensures Fraction(digits + tail, 3, 0) == (ValueOf(digits, 0) * Pow(10, 0), tail)
  {
    NumberTakes(digits, tail, 0, 0);
  }

  lemma Scaled(n: nat, low: nat, high: nat, product: nat)
    requires n < low && product == low * high && high > 0
    ensures 0 <= n * high < product
  {
    assert (low - 1 - n) * high >= 0;
  }

  lemma FewDigits(digits: string)
    requires AllDigits(digits) && |digits| <= 3
    ensures ValueOf("", 0) * Pow(10, 3) == 0
    ensures var millis := ValueOf(digits, 0) * Pow(10, 3 - |digits|);
            0 <= millis < 1000 && Microseconds(digits) == 1000 * millis
  {
    var k, n := |digits|, ValueOf(digits, 0);
    assert ValueOf("", 0) == 0;
    hide ValueOf, Pow;
    PowersOf10();
    ValueOfConcat("", digits);
    PowAdd(10, k, 3 - k);
    PowAdd(10, 3, 3 - k);
    PowPositive(10, 3 - k);
    Scaled(n, Pow(10, k), Pow(10, 3 - k), 1000);
    assert n * (1000 * Pow(10, 3 - k)) == 1000 * (n * Pow(10, 3 - k));
  }

  lemma ManyDigits(digits: string, first: string, second: string)
    requires AllDigits(digits) && AllDigits(first) && AllDigits(second) && |first| == 3 && |second| <= 3
    requires first + second == FirstSix(digits)
    ensures var millis, micros := ValueOf(first, 0) * Pow(10, 0), ValueOf(second, 0) * Pow(10, 3 - |second|);
            0 <= millis < 1000 && 0 <= micros < 1000 && Microseconds(digits) == 1000 * millis + micros
  {
    assert Pow(10, 0) == 1;
    hide ValueOf, Pow, FirstSix;
    PowersOf10();
    var k := |second|;
    ValueOfConcat("", first);
    ValueOfConcat(first, second);
    PowAdd(10, k, 3 - k);
    PowPositive(10, 3 - k);
    SixSum(ValueOf(first, 0), ValueOf(second, 0), Pow(10, k), Pow(10, 3 - k));
  }

  lemma SixSum(m: int, n: int, p: nat, q: nat)
    requires 0 <= n < p && p * q == 1000 && q > 0
    ensures (m * p + n) * q == 1000 * m + n * q && 0 <= n * q < 1000
  {
    Scaled(n, p, q, 1000);
    assert (m * p) * q == m * (p * q);
  }

  // The text

  /** Percent signs apart, a format stands for itself. */
  lemma {:induction false} FormatsItself(text: string, d: Date, t: TimeOfDay, w: WeekdayIndex, tzd: int)
    requires 1 <= d.month <= 12 && '%' !in text
    ensures FormatText(text, d, t, w, tzd) == text
  {
    if text != "" {
      assert text[0] in text;
      forall c | c in text[1..] ensures c in text {}
      FormatsItself(text[1..], d, t, w, tzd);
    }
  }

  lemma IsoTextFormatted(d: Date, t: TimeOfDay, behind: string, w: WeekdayIndex, tzd: int)
    requires IsValid(d, t) && '%' !in behind
    ensures FormatText(ISO_START + behind, d, t, w, tzd) == IsoText(d, t, behind)
  {
    hide FormatText, Format0, Directive;
    IsoDirectives(behind);
    FormatsItself(behind, d, t, w, tzd);
    FormatDirective(":", 'M', behind, d, t, w, tzd);
    FormatDirective("T", 'H', ":%M" + behind, d, t, w, tzd);
    FormatDirective("-", 'd', "T%H:%M" + behind, d, t, w, tzd);
    FormatDirective("-", 'm', "-%dT%H:%M" + behind, d, t, w, tzd);
    FormatDirective("", 'Y', "-%m-%dT%H:%M" + behind, d, t, w, tzd);
    var a, b, c, e, g := Format0(d.year, 4), Format0(d.month, 2), Format0(d.day, 2), Format0(t.hour, 2), Format0(t.minute, 2);
    var h := ":" + g + behind;
    assert a + "-" + b + "-" + c + "T" + e + ":" + g + behind == "" + a + ("-" + b + ("-" + c + ("T" + e + h)));
  }

  /** Seconds with a fraction, down to the microsecond. */
  lemma SecondsRead(f: Fields, second: nat, point: char, digits: string, tail: string)
    requires second < 60 && (point == '.' || point == ',') && AllDigits(digits) && (tail == "" || !IsDigit(tail[0]))
    requires f.second == 0 && f.millis == 0 && f.micros == 0
    ensures var micros := Microseconds(digits);
            ParsePiece('s', f, ":" + Format0(second, 2) + ([point] + (digits + tail)))
            == Parsed(f.(second := second, millis := micros / 1000, micros := micros % 1000), tail)
  {
    hide Format0, Number, ParseFraction, Skip, Microseconds;
    PowersOf10();
    var fraction := digits + tail;
    ReadNumber(":", second, 2, [point] + fraction);
    assert ([point] + fraction)[1..] == fraction;
    FractionReads(f.(second := second), digits, tail);
  }

  /** The first sixteen characters are digits, hyphens, a colon and a T. */
  lemma IsoTextStarts(d: Date, t: TimeOfDay, behind: string)
    requires IsValid(d, t)
    ensures var start := IsoText(d, t, "");
            IsoText(d, t, behind) == start + behind && |start| == 16 && Uses(start, ISO_CHARS) && IsDigit(start[0]) && IsDigit(start[3])
  {
    hide Format0;
    PowersOf10();
    Format0IsFixed(d.year, 4);
    Format0IsFixed(d.month, 2);
    Format0IsFixed(d.day, 2);
    Format0IsFixed(t.hour, 2);
    Format0IsFixed(t.minute, 2);
    hide Fixed;
  }

  lemma SecondsTextUses(second: nat, point: char, digits: string, tzd: int)
    requires second < 100 && AllDigits(digits)
    ensures var behind := SecondsText(second, point, digits, tzd);
            Uses(behind, ISO_CHARS + {point}) && |behind| > 3 && behind[3] == point
  {
    hide Format0, TzdISO;
    PowersOf10();
    Format0IsFixed(second, 2);
    ZoneUses(tzd);
    hide Fixed;
  }

  /** The text is taken for one with a fraction, whichever mark stands before it. */
  lemma FractionDetected(d: Date, t: TimeOfDay, point: char, digits: string, tzd: int)
    requires IsValid(d, t) && (point == '.' || point == ',') && AllDigits(digits)
    ensures DetectedFormat(IsoText(d, t, SecondsText(t.second, point, digits, tzd))) == ISO8601_FRAC_FORMAT
  {
    hide IsoText, SecondsText;
    var start, behind := IsoText(d, t, ""), SecondsText(t.second, point, digits, tzd);
    IsoTextStarts(d, t, behind);
    SecondsTextUses(t.second, point, digits, tzd);
    var text := start + behind;
    assert text[..10] == start[..10] && ',' !in text[..10] && text[16 + 3] == point && text[3] == start[3];
    assert ' ' !in start && ' ' !in behind;
  }

  /** A date with any number of digits behind its seconds is read to the microsecond: missing digits count as zeros, and
      those after the sixth are dropped. */
  lemma FractionDetectedAndRead(d: Date, t: TimeOfDay, point: char, digits: string, tzd: int)
    requires IsValid(d, t) && (point == '.' || point == ',') && AllDigits(digits)
    ensures var micros := Microseconds(digits);
            && 0 <= micros < 1000000
            && ParseAny(IsoText(d, t, SecondsText(t.second, point, digits, tzd)))
               == DateRead(d, t.(millisecond := micros / 1000, microsecond := micros % 1000), ReadZone(TzdISO(tzd)))
  {
    hide FormatText, ParseFields, TzdISO, ReadZone, Microseconds, DetectedFormat, IsoText, SecondsText, ParseFraction;
    FractionDetected(d, t, point, digits, tzd);
    var behind := SecondsText(t.second, point, digits, tzd);
    NoPercent(t.second, point, digits, tzd);
    IsoTextFormatted(d, t, behind, 0, tzd);
    IsoStart(behind, ":%s%z", d, t, 0, tzd);
    FormatsItself(behind, d, t, 0, tzd);
    assert ISO8601_FRAC_FORMAT == ISO_START + ":%s%z";
    FractionReads(NO_FIELDS, digits, "");
    SecondsAndZoneRead(Through('M', d, t), t.second, point, digits, tzd);
  }

  lemma SecondsAndZoneRead(f: Fields, second: nat, point: char, digits: string, tzd: int)
    requires second < 60 && (point == '.' || point == ',') && AllDigits(digits)
    requires f.second == 0 && f.millis == 0 && f.micros == 0
    ensures var micros, zone := Microseconds(digits), TzdISO(tzd);
            ParseFields(":%s%z", f, SecondsText(second, point, digits, tzd))
            == Parsed(f.(second := second, millis := micros / 1000, micros := micros % 1000, tzd := ReadZone(zone)), ParseTZD(zone).1)
  {
    hide Format0, ParseFields, ParsePiece, TzdISO, ReadZone, Microseconds;
    var zone, micros := TzdISO(tzd), Microseconds(digits);
    var text := SecondsText(second, point, digits, tzd);
    assert text == ":" + Format0(second, 2) + ([point] + (digits + zone));
    assert ":%s%z" == Directive(":", 's', "%z");
    ParseDirective(":", 's', "%z", f, text);
    TzdISOStart(tzd);
    SecondsRead(f, second, point, digits, zone);
    ZoneRead(f.(second := second, millis := micros / 1000, micros := micros % 1000), zone);
  }

  lemma ZoneRead(f: Fields, zone: string)
    requires zone != ""
    ensures ParseFields("%z", f, zone) == Parsed(f.(tzd := ReadZone(zone)), ParseTZD(zone).1)
  {
    hide ParseTZD;
    assert "%z" == Directive("", 'z', "");
    ParseDirective("", 'z', "", f, zone);
    ReadZoneIs(zone);
  }

  lemma NoPercent(second: nat, point: char, digits: string, tzd: int)
    requires (point == '.' || point == ',') && AllDigits(digits)
    ensures '%' !in SecondsText(second, point, digits, tzd)
  {
    hide Format0, TzdISO;
    Format0IsDigits(second, 2);
    ZoneUses(tzd);
  }

  // Dates that end early

  lemma NumbersAlone(text: string)
    requires 4 <= |text| < 10 && Uses(text, ISO_CHARS) && IsDigit(text[0]) && IsDigit(text[3])
    ensures DetectedFormat(text) == ISO8601_FORMAT
  {
    assert ',' !in text && ' ' !in text && '.' !in text;
  }

  lemma MonthDirectives()
    ensures ISO8601_FORMAT == Directive("", 'Y', "-%m" + "-%dT%H:%M:%S%z")
    ensures "-%m" + "-%dT%H:%M:%S%z" == Directive("-", 'm', "-%dT%H:%M:%S%z")
    ensures "%Y-%m" == Directive("", 'Y', "-%m") && "-%m" == Directive("-", 'm', "")
  {
  }

  lemma MonthAloneText(year: nat, month: int)
    requires year <= 9999 && 1 <= month <= 12
    ensures var text := Format0(year, 4) + "-" + Format0(month, 2);
            && DetectedFormat(text) == ISO8601_FORMAT
            && FormatText("%Y-%m", Date(year, month, 1), TimeOfDay(0, 0, 0, 0, 0), 0, 0) == text
  {
    hide FormatText, Directive, Format0, DetectedFormat;
    var d, t := Date(year, month, 1), TimeOfDay(0, 0, 0, 0, 0);
    var a, b := Format0(year, 4), Format0(month, 2);
    PowersOf10();
    Format0IsFixed(year, 4);
    Format0IsFixed(month, 2);
    NumbersAlone(a + "-" + b);
    hide Fixed;
    MonthDirectives();
    NothingFormatted(d, t, 0, 0);
    FormatDirective("-", 'm', "", d, t, 0, 0);
    FormatDirective("", 'Y', "-%m", d, t, 0, 0);
    assert "" + a + ("-" + b + "") == a + "-" + b;
  }

  /** A month without a day is its first day. */
  lemma MonthAloneRead(year: nat, month: int)
    requires year <= 9999 && 1 <= month <= 12
    ensures ParseAny(Format0(year, 4) + "-" + Format0(month, 2)) == DateRead(Date(year, month, 1), TimeOfDay(0, 0, 0, 0, 0), 0)
  {
    hide FormatText, ParseFields, Directive, Format0, DetectedFormat;
    var d, t, rest := Date(year, month, 1), TimeOfDay(0, 0, 0, 0, 0), "-%dT%H:%M:%S%z";
    PowersOf10();
    MonthDirectives();
    MonthAloneText(year, month);
    NothingFormatted(d, t, 0, 0);
    NumberRound("", 'Y', 'Y', "-%m", "-%m" + rest, d, t, 0, 0, NO_FIELDS, year);
    NumberRound("-", 'm', 'm', "", rest, d, t, 0, 0, Through('Y', d, t), month);
    NothingLeft(rest, Through('m', d, t));
  }

  lemma YearAloneText(year: nat)
    requires year <= 9999
    ensures DetectedFormat(Format0(year, 4)) == ISO8601_FORMAT
    ensures FormatText("%Y", Date(year, 1, 1), TimeOfDay(0, 0, 0, 0, 0), 0, 0) == Format0(year, 4)
  {
    assert "%Y" == Directive("", 'Y', "");
    hide FormatText, Directive, Format0, DetectedFormat;
    var d, t, a := Date(year, 1, 1), TimeOfDay(0, 0, 0, 0, 0), Format0(year, 4);
    PowersOf10();
    Format0IsFixed(year, 4);
    NumbersAlone(a);
    hide Fixed;
    NothingFormatted(d, t, 0, 0);
    FormatDirective("", 'Y', "", d, t, 0, 0);
    assert "" + a + "" == a;
  }

  /** A year alone is its first day. */
  lemma YearAloneRead(year: nat)
    requires year <= 9999
    ensures ParseAny(Format0(year, 4)) == DateRead(Date(year, 1, 1), TimeOfDay(0, 0, 0, 0, 0), 0)
  {
    var d, t, rest := Date(year, 1, 1), TimeOfDay(0, 0, 0, 0, 0), "-%m-%dT%H:%M:%S%z";
    assert ISO8601_FORMAT == Directive("", 'Y', rest) && "%Y" == Directive("", 'Y', "");
    hide FormatText, ParseFields, Directive, Format0, DetectedFormat;
    PowersOf10();
    YearAloneText(year);
    NothingFormatted(d, t, 0, 0);
    NumberRound("", 'Y', 'Y', "", rest, d, t, 0, 0, NO_FIELDS, year);
    NothingLeft(rest, Through('Y', d, t));
  }

  lemma DateDirectives(rest: string)
    ensures "%Y-%m-%d" + rest == Directive("", 'Y', "-%m-%d" + rest)
    ensures "-%m-%d" + rest == Directive("-", 'm', "-%d" + rest) && "-%d" + rest == Directive("-", 'd', rest)
  {
  }

  /** A date without a time is the start of its day. */
  lemma DateAloneRead(d: Date)
    requires IsDate(d) && 0 <= d.year <= 9999
    ensures ParseAny(Format0(d.year, 4) + "-" + Format0(d.month, 2) + "-" + Format0(d.day, 2))
         == DateRead(d, TimeOfDay(0, 0, 0, 0, 0), 0)
  {
    hide FormatText, ParseFields, Directive, Format0, DetectedFormat;
    var t, time := TimeOfDay(0, 0, 0, 0, 0), " %H:%M:%S";
    var text := Format0(d.year, 4) + "-" + Format0(d.month, 2) + "-" + Format0(d.day, 2);
    PowersOf10();
    DateDirectives("");
    DateDirectives(time);
    assert "%Y-%m-%d" + "" == "%Y-%m-%d" && SORTABLE_FORMAT == "%Y-%m-%d" + time;
    DateAloneText(d);
    NothingFormatted(d, t, 0, 0);
    NumberRound("", 'Y', 'Y', "-%m-%d" + "", "-%m-%d" + time, d, t, 0, 0, NO_FIELDS, d.year);
    NumberRound("-", 'm', 'm', "-%d" + "", "-%d" + time, d, t, 0, 0, Through('Y', d, t), d.month);
    NumberRound("-", 'd', 'd', "", time, d, t, 0, 0, Through('m', d, t), d.day);
    NothingLeft(time, Through('d', d, t));
  }

  lemma NothingLeft(fmt: string, f: Fields)
    ensures ParseFields(fmt, f, "") == Parsed(f, "")
  {
  }

  lemma DateAloneText(d: Date)
    requires IsDate(d) && 0 <= d.year <= 9999
    ensures var text := Format0(d.year, 4) + "-" + Format0(d.month, 2) + "-" + Format0(d.day, 2);
            && DetectedFormat(text) == SORTABLE_FORMAT
            && FormatText("%Y-%m-%d", d, TimeOfDay(0, 0, 0, 0, 0), 0, 0) == text
  {
    hide FormatText, Directive, Format0;
    PowersOf10();
    Format0IsFixed(d.year, 4);
    Format0IsFixed(d.month, 2);
    Format0IsFixed(d.day, 2);
    hide Fixed;
    var t := TimeOfDay(0, 0, 0, 0, 0);
    var a, b, c := Format0(d.year, 4), Format0(d.month, 2), Format0(d.day, 2);
    DateDirectives("");
    assert "%Y-%m-%d" + "" == "%Y-%m-%d";
    NothingFormatted(d, t, 0, 0);
    FormatDirective("-", 'd', "", d, t, 0, 0);
    FormatDirective("-", 'm', "-%d" + "", d, t, 0, 0);
    FormatDirective("", 'Y', "-%m-%d" + "", d, t, 0, 0);
    assert "" + a + ("-" + b + ("-" + c + "")) == a + "-" + b + "-" + c;
  }
}
