/** The texts of DateText in detail: month names in any case, zone names, what each letter reads back, and the HTTP
    date of RFC 7231, name by name and digit by digit.
 */
module DateWords {
  import opened Calendar
  import opened DateText
  import opened DateTimes
  import opened Numerals
  import opened Powers

  /** The names in full. */
  lemma FullNames()
    ensures WeekdayName(0) == "Sunday" && WeekdayName(1) == "Monday" && WeekdayName(2) == "Tuesday" && WeekdayName(3) == "Wednesday"
    ensures WeekdayName(4) == "Thursday" && WeekdayName(5) == "Friday" && WeekdayName(6) == "Saturday"
    ensures MonthName(1) == "January" && MonthName(2) == "February" && MonthName(3) == "March" && MonthName(4) == "April"
    ensures MonthName(5) == "May" && MonthName(6) == "June" && MonthName(7) == "July" && MonthName(8) == "August"
    ensures MonthName(9) == "September" && MonthName(10) == "October" && MonthName(11) == "November" && MonthName(12) == "December"
  {
  }

  // Months

  /** Two characters that are the same, or the two cases of a letter. */
  predicate SameLetter(a: char, b: char) {
    a == b || ('A' <= a <= 'Z' && b as int == a as int + 32) || ('A' <= b <= 'Z' && a as int == b as int + 32)
  }

  predicate Begins(letters: string, name: string) {
    |letters| <= |name| && forall i :: 0 <= i < |letters| ==> SameLetter(letters[i], name[i])
  }

  lemma MonthSpelling(m: nat)
    requires m < 12
    ensures |MONTH_NAMES[m]| >= 3 && 'A' <= MONTH_NAMES[m][0] <= 'Z'
    ensures forall i :: 1 <= i < |MONTH_NAMES[m]| ==> 'a' <= MONTH_NAMES[m][i] <= 'z'
  {
  }

  lemma CapitalizedBegins(letters: string, m: nat)
    requires m < 12
    ensures Capitalized(letters) <= MONTH_NAMES[m] <==> Begins(letters, MONTH_NAMES[m])
  {
    MonthSpelling(m);
    var name := MONTH_NAMES[m];
    hide SameLetter, ToUpper, ToLower;
    forall i | 0 <= i < |letters| && i < |name| ensures Capitalized(letters)[i] == name[i] <==> SameLetter(letters[i], name[i]) {
      Cases(letters[i], name[i]);
    }
    if Begins(letters, name) {
      assert Capitalized(letters) == name[..|letters|];
    }
    if Capitalized(letters) <= name {
      assert forall i :: 0 <= i < |letters| ==> Capitalized(letters)[i] == name[i];
    }
  }

  lemma Cases(c: char, d: char)
    ensures 'A' <= d <= 'Z' ==> (ToUpper(c) == d <==> SameLetter(c, d))
    ensures 'a' <= d <= 'z' ==> (ToLower(c) == d <==> SameLetter(c, d))
  {
    if 'a' <= c <= 'z' { assert ToUpper(c) as int == c as int - 32; }
    if 'A' <= c <= 'Z' { assert ToLower(c) as int == c as int + 32; }
  }

  lemma OnlyOneMonth(letters: string, m: nat, k: nat)
    requires m < 12 && k < 12 && m != k && |letters| >= 3 && letters <= MONTH_NAMES[m]
    ensures !(letters <= MONTH_NAMES[k])
  {
    MonthLetters(m, k);
    assert letters[0] == MONTH_NAMES[m][0] && letters[1] == MONTH_NAMES[m][1] && letters[2] == MONTH_NAMES[m][2];
  }

  lemma {:induction false} MonthFromIff(i: nat, letters: string, m: nat)
    requires i <= m < 12 && |letters| >= 3
    ensures MonthFrom(i, letters) == m + 1 <==> letters <= MONTH_NAMES[m]
    decreases m - i
  {
    if i < m {
      MonthFromIff(i + 1, letters, m);
      if letters <= MONTH_NAMES[i] { OnlyOneMonth(letters, i, m); }
    } else {
      MonthFromAbove(i + 1, letters);
    }
  }

  lemma {:induction false} MonthFromAbove(i: nat, letters: string)
    requires i <= 12
    ensures MonthFrom(i, letters) == 0 || MonthFrom(i, letters) > i
    decreases 12 - i
  {
    if i < 12 { MonthFromAbove(i + 1, letters); }
  }

  /** Three letters or more, in any case, are a month exactly if its name begins with them. */
  lemma MonthOfIff(letters: string, month: int)
    requires 1 <= month <= 12
    ensures MonthOf(letters) == month <==> |letters| >= 3 && Begins(letters, MonthName(month))
  {
    hide Begins, MonthFrom;
    if |letters| >= 3 {
      CapitalizedBegins(letters, month - 1);
      MonthFromIff(0, Capitalized(letters), month - 1);
    }
  }

  // Zones

  /** No zone of the table hides behind one of the same name. */
  lemma NewNames(k: nat)
    requires k < |ZONES|
    ensures forall j :: 0 <= j < k ==> ZONES[j].0 != ZONES[k].0
  {
  }

  lemma {:induction false} ZoneOffsetFrom(j: nat, k: nat)
    requires j <= k < |ZONES| && forall i :: 0 <= i < k ==> ZONES[i].0 != ZONES[k].0
    ensures ZoneOffset(ZONES[j..], ZONES[k].0) == ZONES[k].1
    decreases k - j
  {
    var zones := ZONES;
    hide ZONES;
    assert zones[j..][0] == zones[j] && zones[j..][1..] == zones[j + 1..];
    if j < k { ZoneOffsetFrom(j + 1, k); }
  }

  lemma ZoneNamesAreLetters(k: nat)
    requires k < |ZONES|
    ensures 1 <= |ZONES[k].0| <= 4 && forall i :: 0 <= i < |ZONES[k].0| ==> IsAlpha(ZONES[k].0[i])
  {
  }

  /** Each zone of the table is read as its offset. */
  lemma ZoneNameRead(k: nat)
    requires k < |ZONES|
    ensures ReadZone(ZONES[k].0) == ZONES[k].1
  {
    NewNames(k);
    ZoneOffsetFrom(0, k);
    ZoneNamesAreLetters(k);
    hide ZONES, ZoneOffset;
    var zones := ZONES;
    var name := zones[k].0;
    assert zones[0..] == zones && name + "" == name && name[..|name|] == name && name[|name|..] == "";
    NothingToSkip(IsSpace, name);
    PrefixIs(IsAlpha, name, "");
  }

  lemma {:induction false} PrefixThrough(kind: char -> bool, a: string, b: string)
    requires forall i :: 0 <= i < |a| ==> kind(a[i])
    ensures Prefix(kind, a + b) == |a| + Prefix(kind, b)
  {
    if a == "" {
      assert a + b == b;
    } else {
      PrefixThrough(kind, a[1..], b);
      assert (a + b)[1..] == a[1..] + b;
    }
  }

  /** Only the first four letters of a name count; those that follow are left. */
  lemma FourLettersCount(name: string, more: string)
    requires |name| == 4 && more != "" && IsAlpha(more[0]) && forall i :: 0 <= i < 4 ==> IsAlpha(name[i])
    ensures ParseTZD(name + more) == (ZoneOffset(ZONES, name), more)
  {
    hide ParseOffset, ParseTZD, ZoneOffset;
    var text := name + more;
    assert text[0] == name[0] && text[..4] == name && text[4..] == more;
    NothingToSkip(IsSpace, text);
    PrefixThrough(IsAlpha, name, more);
    assert Prefix(IsAlpha, more) > 0;
    hide Prefix, Skip;
    NoOffset(more);
    LettersTaken(text);
  }

  lemma LettersTaken(text: string)
    requires Skip(IsSpace, text) == text && Prefix(IsAlpha, text) > 4
    ensures ParseTZD(text) == (var (offset, rest) := ParseOffset(text[4..]); (ZoneOffset(ZONES, text[..4]) + offset, rest))
  {
    hide ZoneOffset, Prefix, ParseOffset, Skip;
  }

  lemma NoOffset(text: string)
    requires text == "" || IsAlpha(text[0])
    ensures ParseOffset(text) == (0, text)
  {
  }

  /** The zones of RFC 822, section 5.1, in hours. */
  const RFC822_ZONES := {("UT", 0), ("GMT", 0), ("EST", -5), ("EDT", -4), ("CST", -6), ("CDT", -5), ("MST", -7), ("MDT", -6),
                         ("PST", -8), ("PDT", -7)}

  lemma Rfc822Zones(name: string, hours: int)
    requires (name, hours) in RFC822_ZONES
    ensures ReadZone(name) == 3600 * hours
  {
    hide ReadZone;
    var k := match name case "UT" => 1 case "GMT" => 2 case "EST" => 17 case "EDT" => 18 case "CST" => 19 case "CDT" => 20
             case "MST" => 21 case "MDT" => 22 case "PST" => 23 case _ => 24;
    ZoneNameRead(k);
    assert ZONES[k] == (name, 3600 * hours);
  }

  /** The standard times that the table lists before their daylight saving times. */
  predicate IsStandardTime(k: nat) {
    (5 <= k <= 25 && k % 2 == 1) || k in {28, 30, 32}
  }

  lemma SummerTimes(k: nat)
    requires IsStandardTime(k)
    ensures ReadZone(ZONES[k + 1].0) == ReadZone(ZONES[k].0) + 3600
  {
    hide ReadZone;
    ZoneNameRead(k);
    ZoneNameRead(k + 1);
  }

  // Samples

  /** The first three letters of the names are those of RFC 5322, section 3.3. */
  lemma ShortNames(month: int, w: WeekdayIndex)
    requires 1 <= month <= 12
    ensures MonthName(month)[..3] == ShortMonth(month) && WeekdayName(w)[..3] == ShortWeekday(w)
  {
    MonthInThree(month - 1);
    WeekdayInThree(w);
    SameThree(MonthName(month)[..3], ShortMonth(month));
    SameThree(WeekdayName(w)[..3], ShortWeekday(w));
  }

  lemma SameThree(a: string, b: string)
    requires |a| == |b| == 3 && a[0] == b[0] && a[1] == b[1] && a[2] == b[2]
    ensures a == b
  {
  }

  lemma MonthInThree(m: nat)
    requires m < 12
    ensures |MONTH_NAMES[m]| >= 3
    ensures var name, short := MONTH_NAMES[m], "JanFebMarAprMayJunJulAugSepOctNovDec";
            name[0] == short[3 * m] && name[1] == short[3 * m + 1] && name[2] == short[3 * m + 2]
  {
  }

  lemma WeekdayInThree(w: WeekdayIndex)
    ensures |WEEKDAY_NAMES[w]| >= 3
    ensures var name, short := WEEKDAY_NAMES[w], "SunMonTueWedThuFriSat";
            name[0] == short[3 * w] && name[1] == short[3 * w + 1] && name[2] == short[3 * w + 2]
  {
  }

  lemma FixedOnce(n: nat, width: nat)
    requires width > 0
    ensures Fixed(n, width) == Fixed(n / 10, width - 1) + [Digit(n % 10)]
  {
  }

  lemma TwoFixed(n: nat)
    requires n < 100
    ensures Fixed(n, 2) == [Digit(n / 10), Digit(n % 10)]
  {
    FixedOnce(n, 2);
    FixedOnce(n / 10, 1);
  }

  lemma TwoDigits(n: nat)
    requires n < 100
    ensures Format0(n, 2) == [Digit(n / 10), Digit(n % 10)]
  {
    hide Format0, Fixed;
    PowersOf10();
    Format0IsFixed(n, 2);
    TwoFixed(n);
  }

  lemma FourDigits(n: nat)
    requires n < 10000
    ensures Format0(n, 4) == [Digit(n / 1000), Digit(n / 100 % 10), Digit(n / 10 % 10), Digit(n % 10)]
  {
    hide Format0, Fixed;
    PowersOf10();
    Format0IsFixed(n, 4);
    FixedOnce(n, 4);
    FixedOnce(n / 10, 3);
    TwoFixed(n / 100);
    assert n / 10 / 10 == n / 100 && n / 100 / 10 == n / 1000;
  }

  function Two(n: nat): string
    requires n < 100
  {
    [Digit(n / 10), Digit(n % 10)]
  }

  function Four(n: nat): string
    requires n < 10000
  {
    [Digit(n / 1000), Digit(n / 100 % 10), Digit(n / 10 % 10), Digit(n % 10)]
  }

  function ShortMonth(month: int): string
    requires 1 <= month <= 12
  {
    "JanFebMarAprMayJunJulAugSepOctNovDec"[3 * month - 3..3 * month]
  }

  function ShortWeekday(w: WeekdayIndex): string {
    "SunMonTueWedThuFriSat"[3 * w..3 * w + 3]
  }

  function Clock(t: TimeOfDay): string
    requires t.IsTime()
  {
    Two(t.hour) + ":" + Two(t.minute) + ":" + Two(t.second)
  }

  lemma ClockDirectives(rest: string)
    ensures " %H:%M:%S" + rest == Directive(" ", 'H', ":%M:%S" + rest)
    ensures ":%M:%S" + rest == Directive(":", 'M', ":%S" + rest) && ":%S" + rest == Directive(":", 'S', rest)
  {
  }

  lemma ClockText(rest: string, d: Date, t: TimeOfDay, w: WeekdayIndex, tzd: int)
    requires IsValid(d, t)
    ensures FormatText(" %H:%M:%S" + rest, d, t, w, tzd) == " " + Clock(t) + FormatText(rest, d, t, w, tzd)
  {
    hide FormatText, Format0, Directive;
    ClockDirectives(rest);
    TwoDigits(t.hour);
    TwoDigits(t.minute);
    TwoDigits(t.second);
    FormatDirective(":", 'S', rest, d, t, w, tzd);
    FormatDirective(":", 'M', ":%S" + rest, d, t, w, tzd);
    FormatDirective(" ", 'H', ":%M:%S" + rest, d, t, w, tzd);
    hide Two;
    var a, b, c, e := Two(t.hour), Two(t.minute), Two(t.second), FormatText(rest, d, t, w, tzd);
    assert " " + a + (":" + b + (":" + c + e)) == " " + (a + ":" + b + ":" + c) + e;
  }

  lemma HttpDirectives()
    ensures HTTP_FORMAT == Directive("", 'w', ", %d %b %Y %H:%M:%S %Z")
    ensures ", %d %b %Y %H:%M:%S %Z" == Directive(", ", 'd', " %b %Y %H:%M:%S %Z")
    ensures " %b %Y %H:%M:%S %Z" == Directive(" ", 'b', " %Y %H:%M:%S %Z") && " %Y %H:%M:%S %Z" == Directive(" ", 'Y', " %H:%M:%S %Z")
    ensures " %H:%M:%S %Z" == " %H:%M:%S" + " %Z" && " %Z" == Directive(" ", 'Z', "")
  {
  }

  /** The text of an HTTP date is that of RFC 7231, section 7.1.1.1, digit by digit. */
  lemma HttpText(d: Date, t: TimeOfDay, w: WeekdayIndex)
    requires IsValid(d, t)
    ensures FormatText(HTTP_FORMAT, d, t, w, UTC)
         == ShortWeekday(w) + ", " + Two(d.day) + " " + ShortMonth(d.month) + " " + Four(d.year) + " " + Clock(t) + " GMT"
  {
    hide FormatText, Format0, Directive, MonthName, WeekdayName;
    HttpDirectives();
    ShortNames(d.month, w);
    TwoDigits(d.day);
    FourDigits(d.year);
    ClockText(" %Z", d, t, w, UTC);
    NothingFormatted(d, t, w, UTC);
    FormatDirective(" ", 'Z', "", d, t, w, UTC);
    FormatDirective(" ", 'Y', " %H:%M:%S %Z", d, t, w, UTC);
    FormatDirective(" ", 'b', " %Y %H:%M:%S %Z", d, t, w, UTC);
    FormatDirective(", ", 'd', " %b %Y %H:%M:%S %Z", d, t, w, UTC);
    FormatDirective("", 'w', ", %d %b %Y %H:%M:%S %Z", d, t, w, UTC);
    hide Two, Four, ShortMonth, ShortWeekday, Clock;
    var a, b, c, e, g := ShortWeekday(w), Two(d.day), ShortMonth(d.month), Four(d.year), Clock(t);
    HttpJoined(a, b, c, e, g);
  }

  lemma HttpJoined(a: string, b: string, c: string, e: string, g: string)
    ensures "" + a + (", " + b + (" " + c + (" " + e + (" " + g + (" " + "GMT" + "")))))
         == a + ", " + b + " " + c + " " + e + " " + g + " GMT"
  {
  }

  /** The text of `asctime`, with a blank in front of a day of one digit. */
  lemma AsctimeText(d: Date, t: TimeOfDay, w: WeekdayIndex, tzd: int)
    requires IsValid(d, t)
    ensures FormatText(ASCTIME_FORMAT, d, t, w, tzd)
         == ShortWeekday(w) + " " + ShortMonth(d.month) + " " + (if d.day < 10 then " " + [Digit(d.day)] else Two(d.day)) + " "
            + Clock(t) + " " + Four(d.year)
  {
    AsctimeDirectives();
    hide FormatText, Format0, Format, Directive, MonthName, WeekdayName;
    assert " %H:%M:%S %Y" == " %H:%M:%S" + " %Y";
    ShortNames(d.month, w);
    FourDigits(d.year);
    BlankOrDigits(d.day);
    ClockText(" %Y", d, t, w, tzd);
    NothingFormatted(d, t, w, tzd);
    FormatDirective(" ", 'Y', "", d, t, w, tzd);
    FormatDirective(" ", 'f', " %H:%M:%S %Y", d, t, w, tzd);
    FormatDirective(" ", 'b', " %f %H:%M:%S %Y", d, t, w, tzd);
    FormatDirective("", 'w', " %b %f %H:%M:%S %Y", d, t, w, tzd);
    var a, b, c, e, g := ShortWeekday(w), Format(d.day, 2), ShortMonth(d.month), Four(d.year), Clock(t);
    hide Two, Four, ShortMonth, ShortWeekday, Clock;
    AsctimeJoined(a, b, c, e, g);
  }

  lemma AsctimeJoined(a: string, b: string, c: string, e: string, g: string)
    ensures "" + a + (" " + c + (" " + b + (" " + g + (" " + e + "")))) == a + " " + c + " " + b + " " + g + " " + e
  {
  }

  lemma BlankOrDigits(n: nat)
    requires n < 100
    ensures Format(n, 2) == if n < 10 then " " + [Digit(n)] else Two(n)
  {
    if n < 10 {
      assert Decimal(n) == "" + [Digit(n)];
    } else {
      assert Decimal(n / 10) == "" + [Digit(n / 10)];
    }
  }

  lemma SampleParts()
    ensures Two(6) == "06" && Four(1994) == "1994" && ShortMonth(11) == "Nov" && ShortWeekday(0) == "Sun"
    ensures Clock(TimeOfDay(8, 49, 37, 0, 0)) == "08:49:37"
  {
    assert Two(8) == "08" && Two(49) == "49" && Two(37) == "37";
  }

  /** The first sample of that section. */
  lemma HttpSample()
    ensures FormatText(HTTP_FORMAT, Date(1994, 11, 6), TimeOfDay(8, 49, 37, 0, 0), 0, UTC) == "Sun, 06 Nov 1994 08:49:37 GMT"
  {
    hide FormatText, Two, Four, ShortMonth, ShortWeekday, Clock;
    SampleParts();
    HttpText(Date(1994, 11, 6), TimeOfDay(8, 49, 37, 0, 0), 0);
  }

  // Letter by letter

  /** What each letter of a format should give back of a date and a time that it has printed. */
  function GivenBack(c: char, d: Date, t: TimeOfDay): Fields
    requires IsValid(d, t)
  {
    match c
    case 'd' => NO_FIELDS.(day := d.day)
    case 'e' => NO_FIELDS.(day := d.day)
    case 'f' => NO_FIELDS.(day := d.day)
    case 'm' => NO_FIELDS.(month := d.month)
    case 'n' => NO_FIELDS.(month := d.month)
    case 'o' => NO_FIELDS.(month := d.month)
    case 'Y' => NO_FIELDS.(year := d.year)
    case 'H' => NO_FIELDS.(hour := t.hour)
    case 'h' => NO_FIELDS.(hour := if t.hour % 12 == 0 then 12 else t.hour % 12)
    case 'M' => NO_FIELDS.(minute := t.minute)
    case 'S' => NO_FIELDS.(second := t.second)
    case 'i' => NO_FIELDS.(millis := t.millisecond)
    case _ => NO_FIELDS.(millis := t.millisecond - t.millisecond % 100)
  }

  const PADDED_LETTERS := {'d', 'm', 'Y', 'H', 'h', 'M', 'S', 'i'}

  lemma PaddedLetter(c: char, d: Date, t: TimeOfDay, w: WeekdayIndex, tzd: int, tail: string)
    requires IsValid(d, t) && c in PADDED_LETTERS
    ensures ParsePiece(c, NO_FIELDS, " " + Piece(c, d, t, w, tzd) + tail) == Parsed(GivenBack(c, d, t), tail)
  {
    hide Number, Skip, Format0;
    PowersOf10();
    match c
    case 'Y' => ReadNumber(" ", d.year, 4, tail);
    case 'i' => ReadNumber(" ", t.millisecond, 3, tail);
    case 'd' => ReadNumber(" ", d.day, 2, tail);
    case 'm' => ReadNumber(" ", d.month, 2, tail);
    case 'H' => ReadNumber(" ", t.hour, 2, tail);
    case 'h' => ReadNumber(" ", HourAMPM(t.hour), 2, tail);
    case 'M' => ReadNumber(" ", t.minute, 2, tail);
    case 'S' => ReadNumber(" ", t.second, 2, tail);
  }

  const UNPADDED_LETTERS := {'e', 'f', 'n', 'o', 'c'}

  lemma UnpaddedLetter(c: char, d: Date, t: TimeOfDay, w: WeekdayIndex, tzd: int, tail: string)
    requires IsValid(d, t) && c in UNPADDED_LETTERS && (tail == "" || !IsDigit(tail[0]))
    ensures ParsePiece(c, NO_FIELDS, " " + Piece(c, d, t, w, tzd) + tail) == Parsed(GivenBack(c, d, t), tail)
  {
    hide Number, Skip, Decimal;
    PowersOf10();
    var n := if c == 'c' then t.millisecond / 100 else if c == 'e' || c == 'f' then d.day else d.month;
    var width := if c == 'c' then 1 else 2;
    var blanks := " " + (if c == 'f' || c == 'o' then Repeat(' ', 2 - |Decimal(n)|) else "");
    ReadUnpadded(blanks, n, width, tail);
    assert " " + Piece(c, d, t, w, tzd) + tail == blanks + Decimal(n) + tail;
  }

  /** What a letter prints behind a blank, it reads back; c gives the hundreds of the milliseconds. */
  lemma LetterRoundTrip(c: char, d: Date, t: TimeOfDay, w: WeekdayIndex, tzd: int, tail: string)
    requires IsValid(d, t) && c in PADDED_LETTERS + UNPADDED_LETTERS && (tail == "" || !IsDigit(tail[0]))
    ensures ParsePiece(c, NO_FIELDS, " " + Piece(c, d, t, w, tzd) + tail) == Parsed(GivenBack(c, d, t), tail)
  {
    hide ParsePiece, Piece, GivenBack;
    if c in PADDED_LETTERS {
      PaddedLetter(c, d, t, w, tzd, tail);
    } else {
      UnpaddedLetter(c, d, t, w, tzd, tail);
    }
  }

  /** Six digits of a fraction are read as milliseconds and microseconds. */
  lemma FractionLetter(d: Date, t: TimeOfDay, w: WeekdayIndex, tzd: int, tail: string)
    requires IsValid(d, t) && (tail == "" || !IsDigit(tail[0]))
    ensures ParsePiece('F', NO_FIELDS, " " + Piece('F', d, t, w, tzd) + tail)
         == Parsed(NO_FIELDS.(millis := t.millisecond, micros := t.microsecond), tail)
  {
    hide Format0, Fraction, Skip;
    PowersOf10();
    SixDigits(t.millisecond, t.microsecond);
    var high, low := Format0(t.millisecond, 3), Format0(t.microsecond, 3);
    ReadsBack(t.millisecond, 3, low + tail);
    ReadsBack(t.microsecond, 3, tail);
    assert " " + (high + low) + tail == " " + (high + (low + tail));
    PrefixIs(IsJunk, " ", high + (low + tail));
    NothingToSkip(IsDigit, tail);
  }

  /** A month's name is read back from its letters, and a weekday's is passed over. */
  lemma NameRoundTrip(d: Date, t: TimeOfDay, w: WeekdayIndex, tzd: int, tail: string)
    requires IsValid(d, t) && (tail == "" || !IsAlpha(tail[0]))
    ensures ParsePiece('B', NO_FIELDS, " " + Piece('B', d, t, w, tzd) + tail) == Parsed(NO_FIELDS.(month := d.month), tail)
    ensures ParsePiece('W', NO_FIELDS, " " + Piece('W', d, t, w, tzd) + tail) == Parsed(NO_FIELDS, tail)
  {
    hide Skip, Take, MonthOf, MonthName, WeekdayName;
    var month, weekday := MonthName(d.month), WeekdayName(w);
    MonthSpelling(d.month - 1);
    MonthNameIs(d.month);
    WeekdayLetters('W', w);
    assert WeekdayText('W', w) == weekday;
    assert " " + month + tail == " " + (month + tail) && " " + weekday + tail == " " + (weekday + tail);
    assert (month + tail)[0] == month[0] && (weekday + tail)[0] == weekday[0];
    PrefixIs(IsSpaceOrPunct, " ", month + tail);
    PrefixIs(IsAlpha, month, tail);
    PrefixIs(IsSpace, " ", weekday + tail);
    PrefixIs(IsAlpha, weekday, tail);
    MonthOfIff(month, d.month);
  }
}
