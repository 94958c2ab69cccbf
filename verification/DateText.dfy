/** Dates as text: `DateTimeFormatter` and `DateTimeParser` of src/base/src/datetime.cpp. The name tables, the
    formats and the zones are those of that file.
 */
module DateText {
  import opened CArithmetic
  import opened Calendar
  import opened DateTimes
  import opened Numerals
  import opened Powers

  const ISO8601_FORMAT := "%Y-%m-%dT%H:%M:%S%z"
  const ISO8601_FRAC_FORMAT := "%Y-%m-%dT%H:%M:%s%z"
  const HTTP_FORMAT := "%w, %d %b %Y %H:%M:%S %Z"
  const RFC822_FORMAT := "%w, %e %b %y %H:%M:%S %Z"
  const RFC1123_FORMAT := "%w, %e %b %Y %H:%M:%S %Z"
  const RFC850_FORMAT := "%W, %e-%b-%y %H:%M:%S %Z"
  const RFC1036_FORMAT := "%W, %e %b %y %H:%M:%S %Z"
  const ASCTIME_FORMAT := "%w %b %f %H:%M:%S %Y"
  const SORTABLE_FORMAT := "%Y-%m-%d %H:%M:%S"

  /** The formats `tryParse` reads dates with a comma in. */
  const RFC_FORMAT := "%w, %e %b %r %H:%M:%S %Z"
  const FULL_RFC_FORMAT := "%W, %e %b %r %H:%M:%S %Z"

  const WEEKDAY_NAMES: seq<string> := ["Sunday", "Monday", "Tuesday", "Wednesday", "Thursday", "Friday", "Saturday"]

  const MONTH_NAMES: seq<string> := ["January", "February", "March", "April", "May", "June",
                                     "July", "August", "September", "October", "November", "December"]

  /** The zone that stands for none. */
  const UTC: int := 0xFFFF

  // Printing

  function TzdISO(tzd: int): string {
    if tzd == UTC then "Z"
    else if tzd >= 0 then "+" + Format0(tzd / 3600, 2) + ":" + Format0(tzd % 3600 / 60, 2)
    else "-" + Format0(-tzd / 3600, 2) + ":" + Format0(-tzd % 3600 / 60, 2)
  }

  function TzdRFC(tzd: int): string {
    if tzd == UTC then "GMT"
    else if tzd >= 0 then "+" + Format0(tzd / 3600, 2) + Format0(tzd % 3600 / 60, 2)
    else "-" + Format0(-tzd / 3600, 2) + Format0(-tzd % 3600 / 60, 2)
  }

  function HourAMPM(hour: int): int {
    if hour < 1 then 12 else if hour > 12 then hour - 12 else hour
  }

  /** A day of the week: 0 is Sunday. */
  type WeekdayIndex = w: int | 0 <= w < 7

  function WeekdayName(w: WeekdayIndex): (name: string)
    ensures |name| >= 6
  {
    WEEKDAY_NAMES[w]
  }

  function MonthName(month: int): (name: string)
    requires 1 <= month <= 12
    ensures |name| >= 3
  {
    MONTH_NAMES[month - 1]
  }

  /** What stands for a letter after a percent sign. */
  function Piece(c: char, d: Date, t: TimeOfDay, w: WeekdayIndex, tzd: int): string
    requires 1 <= d.month <= 12
  {
    match c
    case 'w' => WeekdayName(w)[..3]
    case 'W' => WeekdayName(w)
    case 'b' => MonthName(d.month)[..3]
    case 'B' => MonthName(d.month)
    case 'd' => Format0(d.day, 2)
    case 'e' => Signed(d.day)
    case 'f' => Format(d.day, 2)
    case 'm' => Format0(d.month, 2)
    case 'n' => Signed(d.month)
    case 'o' => Format(d.month, 2)
    case 'y' => Format0(Remainder(d.year, 100), 2)
    case 'Y' => Format0(d.year, 4)
    case 'H' => Format0(t.hour, 2)
    case 'h' => Format0(HourAMPM(t.hour), 2)
    case 'a' => if t.hour < 12 then "am" else "pm"
    case 'A' => if t.hour < 12 then "AM" else "PM"
    case 'M' => Format0(t.minute, 2)
    case 'S' => Format0(t.second, 2)
    case 's' => Format0(t.second, 2) + "." + Format0(t.millisecond * 1000 + t.microsecond, 6)
    case 'i' => Format0(t.millisecond, 3)
    case 'c' => Signed(Quotient(t.millisecond, 100))
    case 'F' => Format0(t.millisecond * 1000 + t.microsecond, 6)
    case 'z' => TzdISO(tzd)
    case 'Z' => TzdRFC(tzd)
    case _ => [c]
  }

  function FormatText(fmt: string, d: Date, t: TimeOfDay, w: WeekdayIndex, tzd: int): string
    requires 1 <= d.month <= 12
  {
    if fmt == "" then ""
    else if fmt[0] != '%' then [fmt[0]] + FormatText(fmt[1..], d, t, w, tzd)
    else if |fmt| == 1 then ""
    else Piece(fmt[1], d, t, w, tzd) + FormatText(fmt[2..], d, t, w, tzd)
  }

  /** Whether a format has a letter for the weekday. */
  predicate ShowsWeekday(fmt: string) {
    if fmt == "" then false
    else if fmt[0] != '%' then ShowsWeekday(fmt[1..])
    else if |fmt| == 1 then false
    else fmt[1] == 'w' || fmt[1] == 'W' || ShowsWeekday(fmt[2..])
  }

  /** The entry of the table that a computed weekday looks up; a negative one has none. */
  function Looked(weekday: int): WeekdayIndex {
    if 0 <= weekday < 7 then weekday else 0
  }

  lemma NoWeekdayShown(c: char, d: Date, t: TimeOfDay, w: WeekdayIndex, w': WeekdayIndex, tzd: int)
    requires 1 <= d.month <= 12 && c != 'w' && c != 'W'
    ensures Piece(c, d, t, w, tzd) == Piece(c, d, t, w', tzd)
  {
  }

  /** The text of a format that shows no weekday does not depend on it. */
  lemma {:induction false} WeekdayNotShown(fmt: string, d: Date, t: TimeOfDay, w: WeekdayIndex, w': WeekdayIndex, tzd: int)
    requires 1 <= d.month <= 12 && !ShowsWeekday(fmt)
    ensures FormatText(fmt, d, t, w, tzd) == FormatText(fmt, d, t, w', tzd)
    decreases |fmt|
  {
    hide Piece;
    if |fmt| > 0 && fmt[0] != '%' {
      WeekdayNotShown(fmt[1..], d, t, w, w', tzd);
    } else if |fmt| > 1 {
      NoWeekdayShown(fmt[1], d, t, w, w', tzd);
      WeekdayNotShown(fmt[2..], d, t, w, w', tzd);
    }
  }

  /** The loop of `DateTimeFormatter::append`. For a letter that shows the weekday it looks into a table of seven with
      the weekday that `dayOfWeek` computes, which must not be negative. */
  method Append(str: string, date: DateTime, fmt: string, tzd: int, off: real) returns (text: string)
    requires 1 <= date.month <= 12 && (ShowsWeekday(fmt) ==> 0 <= WeekdayFrom(date.utcTime, off))
    ensures text == str + FormatText(fmt, date.Day(), date.Time(), Looked(WeekdayFrom(date.utcTime, off)), tzd)
  {
    hide Piece, WeekdayFrom;
    text := str;
    ghost var d, t, w := date.Day(), date.Time(), Looked(WeekdayFrom(date.utcTime, off));
    var it := 0;
    while it < |fmt|
      invariant it <= |fmt| && text + FormatText(fmt[it..], d, t, w, tzd) == str + FormatText(fmt, d, t, w, tzd)
      invariant ShowsWeekday(fmt[it..]) ==> 0 <= WeekdayFrom(date.utcTime, off)
    {
      assert fmt[it..][0] == fmt[it] && fmt[it..][1..] == fmt[it + 1..];
      if fmt[it] == '%' {
        it := it + 1;
        if it < |fmt| {
          assert fmt[it - 1..][2..] == fmt[it + 1..];
          var piece := AppendPiece(date, fmt[it], tzd, off);
          text := text + piece;
          it := it + 1;
        }
      } else {
        text := text + [fmt[it]];
        it := it + 1;
      }
    }
  }

  /** The switch of the loop. */
  method AppendPiece(date: DateTime, c: char, tzd: int, off: real) returns (piece: string)
    requires 1 <= date.month <= 12 && (c == 'w' || c == 'W' ==> 0 <= WeekdayFrom(date.utcTime, off))
    ensures piece == Piece(c, date.Day(), date.Time(), Looked(WeekdayFrom(date.utcTime, off)), tzd)
  {
    var weekday := 0;
    if c == 'w' || c == 'W' {
      weekday := date.DayOfWeek(off);
      WeekdayBelow7(date.utcTime, off);
    } else {
      hide WeekdayFrom;
      NoWeekdayShown(c, date.Day(), date.Time(), 0, Looked(WeekdayFrom(date.utcTime, off)), tzd);
    }
    hide Piece;
    piece := Piece(c, date.Day(), date.Time(), weekday, tzd);
  }

  lemma WeekdayBelow7(ticks: int, off: real)
    ensures -7 < WeekdayFrom(ticks, off) < 7
  {
    hide Remainder;
    RemainderFits((JulianDay(ticks) + off + 1.5).Floor, 7);
  }

  // Characters

  predicate IsSpace(c: char) {
    c == ' ' || '\t' <= c <= '\r'
  }

  predicate IsAlpha(c: char) {
    'A' <= c <= 'Z' || 'a' <= c <= 'z'
  }

  predicate IsPunct(c: char) {
    '!' <= c <= '~' && !IsAlpha(c) && !IsDigit(c)
  }

  predicate IsJunk(c: char) {
    !IsDigit(c)
  }

  predicate IsSpaceOrPunct(c: char) {
    IsSpace(c) || IsPunct(c)
  }

  function ToUpper(c: char): char {
    if 'a' <= c <= 'z' then (c as int - 32) as char else c
  }

  function ToLower(c: char): char {
    if 'A' <= c <= 'Z' then (c as int + 32) as char else c
  }

  /** The longest start of a text whose characters are all of a kind. */
  function Prefix(kind: char -> bool, text: string): (n: nat)
    ensures n <= |text| && (forall i :: 0 <= i < n ==> kind(text[i])) && (n < |text| ==> !kind(text[n]))
  {
    if text == "" || !kind(text[0]) then 0 else 1 + Prefix(kind, text[1..])
  }

  function Skip(kind: char -> bool, text: string): string {
    text[Prefix(kind, text)..]
  }

  function Take(kind: char -> bool, text: string): string {
    text[..Prefix(kind, text)]
  }

  // Parsing

  datatype Fields = Fields(year: int, month: int, day: int, hour: int, minute: int, second: int,
                           millis: int, micros: int, tzd: int)

  const NO_FIELDS := Fields(0, 0, 0, 0, 0, 0, 0, 0, 0)

  datatype Parsed = Parsed(fields: Fields, rest: string) | SyntaxError

  /** The zones and their offsets in seconds. */
  const ZONES: seq<(string, int)> := [
    ("Z", 0), ("UT", 0), ("GMT", 0), ("BST", 3600), ("IST", 3600), ("WET", 0), ("WEST", 3600), ("CET", 3600),
    ("CEST", 7200), ("EET", 7200), ("EEST", 10800), ("MSK", 10800), ("MSD", 14400), ("NST", -12600), ("NDT", -9000),
    ("AST", -14400), ("ADT", -10800), ("EST", -18000), ("EDT", -14400), ("CST", -21600), ("CDT", -18000),
    ("MST", -25200), ("MDT", -21600), ("PST", -28800), ("PDT", -25200), ("AKST", -32400), ("AKDT", -28800),
    ("HST", -36000), ("AEST", 36000), ("AEDT", 39600), ("ACST", 34200), ("ACDT", 37800), ("AWST", 28800), ("AWDT", 32400)]

  function ZoneOffset(zones: seq<(string, int)>, designator: string): int {
    if zones == [] then 0
    else if zones[0].0 == designator then zones[0].1
    else ZoneOffset(zones[1..], designator)
  }

  /** `parseTZD`: at most four letters, then perhaps a signed offset. */
  function ParseTZD(text: string): (int, string) {
    var text := Skip(IsSpace, text);
    var letters := if |Take(IsAlpha, text)| > 4 then 4 else |Take(IsAlpha, text)|;
    var tzd := if letters == 0 then 0 else ZoneOffset(ZONES, text[..letters]);
    var (offset, rest) := ParseOffset(text[letters..]);
    (tzd + offset, rest)
  }

  function ParseOffset(text: string): (int, string) {
    if text == "" || (text[0] != '+' && text[0] != '-') then (0, text)
    else
      var (hours, behind) := Number(text[1..], 2, 0);
      var (minutes, rest) := Number(if behind != "" && behind[0] == ':' then behind[1..] else behind, 2, 0);
      ((if text[0] == '+' then 1 else -1) * (hours * 3600 + minutes * 60), rest)
  }

  function Capitalized(letters: string): string {
    seq(|letters|, i requires 0 <= i < |letters| => if i == 0 then ToUpper(letters[i]) else ToLower(letters[i]))
  }

  /** The first month whose name begins so, or 0. */
  function MonthFrom(i: nat, month: string): (m: nat)
    requires i <= 12
    ensures m <= 12
    decreases 12 - i
  {
    if i == 12 then 0 else if month <= MONTH_NAMES[i] then i + 1 else MonthFrom(i + 1, month)
  }

  function MonthOf(letters: string): nat {
    if |letters| < 3 then 0 else MonthFrom(0, Capitalized(letters))
  }

  function WithCentury(year: int): int {
    if year >= 69 then year + 1900 else year + 2000
  }

  datatype AmPm = Am | Pm | Neither

  function AmPmOf(letters: string): AmPm {
    if |letters| == 2 && ToUpper(letters[0]) == 'A' && ToUpper(letters[1]) == 'M' then Am
    else if |letters| == 2 && ToUpper(letters[0]) == 'P' && ToUpper(letters[1]) == 'M' then Pm
    else Neither
  }

  function ParseFraction(f: Fields, text: string): Parsed {
    var (millis, behind) := Fraction(text, 3, f.millis);
    var (micros, rest) := Fraction(behind, 3, f.micros);
    Parsed(f.(millis := millis, micros := micros), Skip(IsDigit, rest))
  }

  /** What a letter after a percent sign takes from the text. */
  function ParsePiece(c: char, f: Fields, text: string): Parsed {
    match c
    case 'w' => Parsed(f, Skip(IsAlpha, Skip(IsSpace, text)))
    case 'W' => Parsed(f, Skip(IsAlpha, Skip(IsSpace, text)))
    case 'b' => ParseMonth(f, text)
    case 'B' => ParseMonth(f, text)
    case 'd' => ParseDay(f, text)
    case 'e' => ParseDay(f, text)
    case 'f' => ParseDay(f, text)
    case 'm' => ParseMonthNumber(f, text)
    case 'n' => ParseMonthNumber(f, text)
    case 'o' => ParseMonthNumber(f, text)
    case 'y' => var (year, rest) := Number(Skip(IsJunk, text), 2, f.year); Parsed(f.(year := WithCentury(year)), rest)
    case 'Y' => var (year, rest) := Number(Skip(IsJunk, text), 4, f.year); Parsed(f.(year := year), rest)
    case 'r' =>
      var digits := Skip(IsJunk, text);
      var (year, rest) := Number(digits, |digits|, f.year);
      Parsed(f.(year := if year < 1000 then WithCentury(year) else year), rest)
    case 'H' => ParseHour(f, text)
    case 'h' => ParseHour(f, text)
    case 'a' => ParseAMPM(f, text)
    case 'A' => ParseAMPM(f, text)
    case 'M' => var (minute, rest) := Number(Skip(IsJunk, text), 2, f.minute); Parsed(f.(minute := minute), rest)
    case 'S' => var (second, rest) := Number(Skip(IsJunk, text), 2, f.second); Parsed(f.(second := second), rest)
    case 's' =>
      var (second, rest) := Number(Skip(IsJunk, text), 2, f.second);
      if rest != "" && (rest[0] == '.' || rest[0] == ',') then ParseFraction(f.(second := second), rest[1..])
      else Parsed(f.(second := second), rest)
    case 'i' => var (millis, rest) := Number(Skip(IsJunk, text), 3, f.millis); Parsed(f.(millis := millis), rest)
    case 'c' => var (millis, rest) := Number(Skip(IsJunk, text), 1, f.millis); Parsed(f.(millis := 100 * millis), rest)
    case 'F' => ParseFraction(f, Skip(IsJunk, text))
    case 'z' => ParseZone(f, text)
    case 'Z' => ParseZone(f, text)
    case _ => Parsed(f, text)
  }

  function ParseMonth(f: Fields, text: string): Parsed {
    var name := Skip(IsSpaceOrPunct, text);
    var month := MonthOf(Take(IsAlpha, name));
    if month == 0 then SyntaxError else Parsed(f.(month := month), Skip(IsAlpha, name))
  }

  function ParseDay(f: Fields, text: string): Parsed {
    var (day, rest) := Number(Skip(IsJunk, text), 2, f.day);
    Parsed(f.(day := day), rest)
  }

  function ParseMonthNumber(f: Fields, text: string): Parsed {
    var (month, rest) := Number(Skip(IsJunk, text), 2, f.month);
    Parsed(f.(month := month), rest)
  }

  function ParseHour(f: Fields, text: string): Parsed {
    var (hour, rest) := Number(Skip(IsJunk, text), 2, f.hour);
    Parsed(f.(hour := hour), rest)
  }

  function ParseAMPM(f: Fields, text: string): Parsed {
    var name := Skip(IsSpaceOrPunct, text);
    match AmPmOf(Take(IsAlpha, name))
    case Am => Parsed(if f.hour == 12 then f.(hour := 0) else f, Skip(IsAlpha, name))
    case Pm => Parsed(if f.hour < 12 then f.(hour := f.hour + 12) else f, Skip(IsAlpha, name))
    case Neither => SyntaxError
  }

  function ParseZone(f: Fields, text: string): Parsed {
    var (tzd, rest) := ParseTZD(text);
    Parsed(f.(tzd := tzd), rest)
  }

  /** The loop of `parse`: it ends with the format or with the text. Nothing in the format but the letters
      after percent signs takes anything from the text. */
  function ParseFields(fmt: string, f: Fields, text: string): Parsed {
    if fmt == "" || text == "" then Parsed(f, text)
    else if fmt[0] != '%' then ParseFields(fmt[1..], f, text)
    else if |fmt| == 1 then Parsed(f, text)
    else
      var piece := ParsePiece(fmt[1], f, text);
      if piece.SyntaxError? then SyntaxError else ParseFields(fmt[2..], piece.fields, piece.rest)
  }

  datatype DateRead = DateRead(d: Date, t: TimeOfDay, tzd: int) | Invalid

  /** A missing month or day counts as the first. */
  function Assembled(f: Fields): (r: DateRead)
    ensures r.DateRead? ==> IsValid(r.d, r.t)
  {
    var d := Date(f.year, if f.month == 0 then 1 else f.month, if f.day == 0 then 1 else f.day);
    var t := TimeOfDay(f.hour, f.minute, f.second, f.millis, f.micros);
    if IsValid(d, t) then DateRead(d, t, f.tzd) else Invalid
  }

  function ParseText(fmt: string, text: string): (r: DateRead)
    ensures r.DateRead? ==> IsValid(r.d, r.t)
  {
    var parsed := ParseFields(fmt, NO_FIELDS, text);
    if parsed.SyntaxError? then Invalid else Assembled(parsed.fields)
  }

  /** The format `tryParse` takes a text to be in. */
  function DetectedFormat(text: string): (fmt: string) {
    if |text| < 4 then ""
    else if text[3] == ',' then RFC_FORMAT
    else if text[3] == ' ' then ASCTIME_FORMAT
    else if ',' in text[..if |text| < 10 then |text| else 10] then FULL_RFC_FORMAT
    else if IsDigit(text[0]) then
      if ' ' in text || |text| == 10 then SORTABLE_FORMAT
      else if '.' in text || ',' in text then ISO8601_FRAC_FORMAT
      else ISO8601_FORMAT
    else ""
  }

  function ParseAny(text: string): (r: DateRead)
    ensures r.DateRead? ==> IsValid(r.d, r.t)
  {
    var fmt := DetectedFormat(text);
    if fmt == "" then Invalid else ParseText(fmt, text)
  }

  // Skipping

  /** Characters of a kind, before one that is not. */
  lemma {:induction false} PrefixIs(kind: char -> bool, a: string, b: string)
    requires (forall i :: 0 <= i < |a| ==> kind(a[i])) && (b == "" || !kind(b[0]))
    ensures Prefix(kind, a + b) == |a| && Skip(kind, a + b) == b && Take(kind, a + b) == a
  {
    if a == "" {
      assert a + b == b;
    } else {
      PrefixIs(kind, a[1..], b);
      assert (a + b)[1..] == a[1..] + b;
    }
  }

  lemma NothingToSkip(kind: char -> bool, text: string)
    requires text == "" || !kind(text[0])
    ensures Skip(kind, text) == text
  {
  }

  // One piece at a time

  predicate IsLiteral(text: string) {
    forall i :: 0 <= i < |text| ==> text[i] != '%' && !IsDigit(text[i])
  }

  function Directive(before: string, c: char, rest: string): string {
    before + ['%', c] + rest
  }

  lemma OneFirst(a: string, b: string, c: string)
    requires a != ""
    ensures [a[0]] + (a[1..] + b + c) == a + b + c
  {
  }

  lemma {:induction false} FormatDirective(before: string, c: char, rest: string, d: Date, t: TimeOfDay, w: WeekdayIndex, tzd: int)
    requires 1 <= d.month <= 12 && IsLiteral(before)
    ensures FormatText(Directive(before, c, rest), d, t, w, tzd) == before + Piece(c, d, t, w, tzd) + FormatText(rest, d, t, w, tzd)
  {
    hide Piece;
    var fmt := Directive(before, c, rest);
    var piece, others := Piece(c, d, t, w, tzd), FormatText(rest, d, t, w, tzd);
    if before == "" {
      assert fmt[2..] == rest;
      assert "" + piece == piece;
    } else {
      assert fmt[1..] == Directive(before[1..], c, rest);
      FormatDirective(before[1..], c, rest, d, t, w, tzd);
      OneFirst(before, piece, others);
    }
  }

  lemma {:induction false} ParseDirective(before: string, c: char, rest: string, f: Fields, text: string)
    requires IsLiteral(before) && text != ""
    ensures ParseFields(Directive(before, c, rest), f, text)
         == match ParsePiece(c, f, text)
            case SyntaxError => SyntaxError
            case Parsed(f', text') => ParseFields(rest, f', text')
  {
    hide ParsePiece;
    var fmt := Directive(before, c, rest);
    if before == "" {
      assert fmt[2..] == rest;
    } else {
      assert fmt[1..] == Directive(before[1..], c, rest);
      ParseDirective(before[1..], c, rest, f, text);
    }
  }

  // Numbers

  predicate IsNumberLetter(c: char) {
    c in {'Y', 'm', 'd', 'e', 'H', 'M', 'S'}
  }

  function NumberWidth(c: char): nat {
    if c == 'Y' then 4 else 2
  }

  function NumberOf(c: char, f: Fields): int
    requires IsNumberLetter(c)
  {
    match c
    case 'Y' => f.year
    case 'm' => f.month
    case 'H' => f.hour
    case 'M' => f.minute
    case 'S' => f.second
    case _ => f.day
  }

  function WithNumber(c: char, f: Fields, n: int): Fields
    requires IsNumberLetter(c)
  {
    match c
    case 'Y' => f.(year := n)
    case 'm' => f.(month := n)
    case 'H' => f.(hour := n)
    case 'M' => f.(minute := n)
    case 'S' => f.(second := n)
    case _ => f.(day := n)
  }

  lemma NumberPiece(c: char, f: Fields, text: string)
    requires IsNumberLetter(c) && NumberOf(c, f) == 0
    ensures var (n, rest) := Number(Skip(IsJunk, text), NumberWidth(c), 0);
            ParsePiece(c, f, text) == Parsed(WithNumber(c, f, n), rest)
  {
  }

  /** The size of a number is read: its sign counts as junk in front of it. */
  lemma ReadNumber(before: string, n: int, width: nat, tail: string)
    requires IsLiteral(before) && Size(n) < Pow(10, width) && width > 0
    requires n >= 0 || tail == "" || !IsDigit(tail[0])
    ensures Format0(n, width) != "" && Number(Skip(IsJunk, before + Format0(n, width) + tail), width, 0) == (Size(n), tail)
  {
    hide Number, Skip, Padded;
    if n >= 0 {
      ReadsBack(n, width, tail);
      assert before + Format0(n, width) + tail == before + (Format0(n, width) + tail);
      PrefixIs(IsJunk, before, Format0(n, width) + tail);
    } else {
      PaddedLength(Size(n), width);
      ReadsPadded(Size(n), width - 1, width, tail);
      var digits := Padded(Size(n), width - 1) + tail;
      assert before + Format0(n, width) + tail == (before + "-") + digits;
      PrefixIs(IsJunk, before + "-", digits);
    }
  }

  lemma PaddedLength(n: nat, width: nat)
    requires n < Pow(10, width) && width > 0
    ensures |Padded(n, width - 1)| <= width
  {
    DecimalFits(n, width);
  }

  /** A number printed by one letter and read by another of the same width. */
  lemma NumberRound(before: string, printed: char, read: char, restF: string, restP: string,
                    d: Date, t: TimeOfDay, w: WeekdayIndex, tzd: int, f: Fields, n: int)
    requires 1 <= d.month <= 12 && IsLiteral(before) && IsNumberLetter(read) && NumberOf(read, f) == 0
    requires Piece(printed, d, t, w, tzd) == Format0(n, NumberWidth(read)) && Size(n) < Pow(10, NumberWidth(read))
    requires n >= 0 || FormatText(restF, d, t, w, tzd) == "" || !IsDigit(FormatText(restF, d, t, w, tzd)[0])
    ensures ParseFields(Directive(before, read, restP), f, FormatText(Directive(before, printed, restF), d, t, w, tzd))
         == ParseFields(restP, WithNumber(read, f, Size(n)), FormatText(restF, d, t, w, tzd))
  {
    hide Piece, ParsePiece, ParseFields, FormatText, Format0, Skip, Number, WithNumber;
    var tail := FormatText(restF, d, t, w, tzd);
    FormatDirective(before, printed, restF, d, t, w, tzd);
    var text := before + Format0(n, NumberWidth(read)) + tail;
    ReadNumber(before, n, NumberWidth(read), tail);
    ParseDirective(before, read, restP, f, text);
    NumberPiece(read, f, text);
  }

  // Zones

  /** The offset a zone text is read as. */
  function ReadZone(text: string): int {
    ParseTZD(text).0
  }

  /** A zone is given by whole minutes, and less than a hundred hours. */
  predicate IsPrintableZone(tzd: int) {
    tzd == UTC || (tzd % 60 == 0 && -360000 < tzd < 360000)
  }

  lemma OffsetReads(sign: char, hours: nat, colon: string, minutes: nat)
    requires (sign == '+' || sign == '-') && (colon == ":" || colon == "") && minutes < 60
    ensures var (offset, _) := ParseOffset([sign] + Format0(hours, 2) + colon + Format0(minutes, 2));
            var size := if sign == '+' then offset else -offset;
            && size % 60 == 0 && 0 <= size <= 99 * 3600 + 99 * 60
            && (hours < 100 ==> size == hours * 3600 + minutes * 60)
            && (hours == 100 ==> size < 50000)
  {
    hide Number, Format0;
    PowersOf10();
    var digits := Format0(hours, 2) + (colon + Format0(minutes, 2));
    var text := [sign] + Format0(hours, 2) + colon + Format0(minutes, 2);
    assert text[1..] == digits;
    var (h, behind) := Number(digits, 2, 0);
    var rest := if behind != "" && behind[0] == ':' then behind[1..] else behind;
    TwoDigitsAtMost(digits);
    TwoDigitsAtMost(rest);
    assert ParseOffset(text).0 == (if sign == '+' then 1 else -1) * (h * 3600 + Number(rest, 2, 0).0 * 60);
    if hours < 100 {
      ReadsBack(hours, 2, colon + Format0(minutes, 2));
      ReadsBack(minutes, 2, "");
      assert Format0(minutes, 2) + "" == Format0(minutes, 2);
      assert behind == colon + Format0(minutes, 2);
      assert rest == Format0(minutes, 2);
    } else if hours == 100 {
      Hundred(colon + Format0(minutes, 2));
    }
  }

  lemma Hundred(tail: string)
    ensures Number(Format0(100, 2) + tail, 2, 0).0 == 10
  {
    PowersOf10();
    DecimalOfHundred();
    assert Format0(100, 2) == "100";
    var text := "100" + tail;
    assert text[0] == '1' && text[1..][0] == '0';
    assert Number(text, 2, 0) == Number(text[1..], 1, 1) == Number(text[1..][1..], 0, 10);
  }

  lemma DecimalOfHundred()
    ensures Decimal(100) == "100"
  {
    assert Decimal(1) == "" + ['1'] == "1";
    assert Decimal(10) == Decimal(1) + ['0'] == "10";
    assert Decimal(100) == Decimal(10) + ['0'];
  }

  lemma SignedZone(blanks: string, sign: char, offset: string)
    requires (sign == '+' || sign == '-') && (forall i :: 0 <= i < |blanks| ==> IsSpace(blanks[i]))
    ensures ParseTZD(blanks + ([sign] + offset)) == ParseOffset([sign] + offset)
  {
    hide ParseOffset;
    var text := [sign] + offset;
    PrefixIs(IsSpace, blanks, text);
    assert Take(IsAlpha, text) == "" && text[0..] == text;
  }

  lemma NamedZone(blanks: string, name: string)
    requires (name == "Z" || name == "GMT") && (forall i :: 0 <= i < |blanks| ==> IsSpace(blanks[i]))
    ensures ReadZone(blanks + name) == 0
  {
    PrefixIs(IsSpace, blanks, name);
    assert name + "" == name;
    PrefixIs(IsAlpha, name, "");
    assert name[..|name|] == name && name[|name|..] == "";
    ZoneOffsetOfUTC();
  }

  lemma ZoneOffsetOfUTC()
    ensures ZoneOffset(ZONES, "Z") == 0 && ZoneOffset(ZONES, "GMT") == 0
  {
    assert ZONES[0] == ("Z", 0) && ZONES[1..][0] == ("UT", 0) && ZONES[1..][1..][0] == ("GMT", 0);
    assert "GMT" != "Z" && "GMT" != "UT";
  }

  function ZoneText(tzd: int, name: string, colon: string): string {
    if tzd == UTC then name
    else if tzd >= 0 then ['+'] + (Format0(tzd / 3600, 2) + colon + Format0(tzd % 3600 / 60, 2))
    else ['-'] + (Format0(-tzd / 3600, 2) + colon + Format0(-tzd % 3600 / 60, 2))
  }

  /** A zone is read as what it was printed from exactly if it is printable; the special value is read as 0. */
  lemma ZoneRoundTrip(tzd: int, blanks: string, name: string, colon: string)
    requires (name == "Z" && colon == ":") || (name == "GMT" && colon == "")
    requires forall i :: 0 <= i < |blanks| ==> IsSpace(blanks[i])
    ensures ReadZone(blanks + ZoneText(tzd, name, colon)) == (if tzd == UTC then 0 else tzd) <==> IsPrintableZone(tzd)
  {
    hide Format0, ParseOffset, ParseTZD, ReadZone;
    if tzd == UTC {
      NamedZone(blanks, name);
    } else {
      var sign := if tzd >= 0 then '+' else '-';
      var size := if tzd >= 0 then tzd else -tzd;
      var hours, minutes := size / 3600, size % 3600 / 60;
      var offset := Format0(hours, 2) + colon + Format0(minutes, 2);
      SignedZone(blanks, sign, offset);
      OffsetReads(sign, hours, colon, minutes);
      assert [sign] + Format0(hours, 2) + colon + Format0(minutes, 2) == [sign] + offset;
      ReadZoneIs(blanks + ([sign] + offset));
      ZoneParts(size);
    }
  }

  lemma ReadZoneIs(text: string)
    ensures ReadZone(text) == ParseTZD(text).0
  {
  }

  lemma ZoneParts(size: nat)
    ensures size / 3600 < 100 <==> size < 360000
    ensures size % 60 == 0 ==> size / 3600 * 3600 + size % 3600 / 60 * 60 == size
    ensures (size / 3600 * 3600 + size % 3600 / 60 * 60) % 60 == 0 && size % 3600 / 60 < 60
    ensures size <= 99 * 3600 + 99 * 60 && size >= 360000 ==> size / 3600 == 100
  {
  }

  // The formats

  /** The fields as far as they have been read. */
  function Through(c: char, d: Date, t: TimeOfDay): Fields {
    match c
    case 'm' => NO_FIELDS.(year := d.year, month := d.month)
    case 'd' => NO_FIELDS.(year := d.year, month := d.month, day := d.day)
    case 'H' => NO_FIELDS.(year := d.year, month := d.month, day := d.day, hour := t.hour)
    case 'M' => NO_FIELDS.(year := d.year, month := d.month, day := d.day, hour := t.hour, minute := t.minute)
    case 'S' => NO_FIELDS.(year := d.year, month := d.month, day := d.day, hour := t.hour, minute := t.minute, second := t.second)
    case _ => NO_FIELDS.(year := d.year)
  }

  const ISO_START := "%Y-%m-%dT%H:%M"

  lemma IsoDirectives(rest: string)
    ensures ISO_START + rest == Directive("", 'Y', "-%m-%dT%H:%M" + rest)
    ensures "-%m-%dT%H:%M" + rest == Directive("-", 'm', "-%dT%H:%M" + rest)
    ensures "-%dT%H:%M" + rest == Directive("-", 'd', "T%H:%M" + rest)
    ensures "T%H:%M" + rest == Directive("T", 'H', ":%M" + rest)
    ensures ":%M" + rest == Directive(":", 'M', rest)
  {
  }

  /** What the two ISO formats have in common; `restF` is printed behind it and `restP` read. */
  lemma IsoStart(restF: string, restP: string, d: Date, t: TimeOfDay, w: WeekdayIndex, tzd: int)
    requires IsValid(d, t)
    ensures ParseFields(ISO_START + restP, NO_FIELDS, FormatText(ISO_START + restF, d, t, w, tzd))
         == ParseFields(restP, Through('M', d, t), FormatText(restF, d, t, w, tzd))
  {
    hide ParseFields, FormatText, Directive, Format0;
    PowersOf10();
    IsoDirectives(restF);
    IsoDirectives(restP);
    var r1, r2, r3, r4 := "-%m-%dT%H:%M", "-%dT%H:%M", "T%H:%M", ":%M";
    NumberRound("", 'Y', 'Y', r1 + restF, r1 + restP, d, t, w, tzd, NO_FIELDS, d.year);
    NumberRound("-", 'm', 'm', r2 + restF, r2 + restP, d, t, w, tzd, Through('Y', d, t), d.month);
    NumberRound("-", 'd', 'd', r3 + restF, r3 + restP, d, t, w, tzd, Through('m', d, t), d.day);
    NumberRound("T", 'H', 'H', r4 + restF, r4 + restP, d, t, w, tzd, Through('d', d, t), t.hour);
    NumberRound(":", 'M', 'M', restF, restP, d, t, w, tzd, Through('H', d, t), t.minute);
  }

  /** A zone at the end of a text. */
  lemma ZoneEnd(before: string, c: char, d: Date, t: TimeOfDay, w: WeekdayIndex, tzd: int, f: Fields)
    requires 1 <= d.month <= 12 && IsLiteral(before) && (c == 'z' || c == 'Z')
    ensures var zone := before + Piece(c, d, t, w, tzd);
            ParseFields(Directive(before, c, ""), f, FormatText(Directive(before, c, ""), d, t, w, tzd))
            == Parsed(f.(tzd := ReadZone(zone)), ParseTZD(zone).1)
  {
    hide ParseTZD, Format0;
    FormatDirective(before, c, "", d, t, w, tzd);
    var zone := before + Piece(c, d, t, w, tzd);
    assert zone + "" == zone && zone != "";
    hide Piece;
    ParseDirective(before, c, "", f, zone);
    assert ReadZone(zone) == ParseTZD(zone).0;
  }

  /** In the format of ISO 8601, a date is read back to the second. */
  lemma Iso8601RoundTrip(d: Date, t: TimeOfDay, w: WeekdayIndex, tzd: int)
    requires IsValid(d, t)
    ensures ParseText(ISO8601_FORMAT, FormatText(ISO8601_FORMAT, d, t, w, tzd))
         == DateRead(d, t.(millisecond := 0, microsecond := 0), ReadZone(TzdISO(tzd)))
    ensures ReadZone(TzdISO(tzd)) == (if tzd == UTC then 0 else tzd) <==> IsPrintableZone(tzd)
  {
    hide ParseFields, FormatText, ReadZone, ParseTZD;
    PowersOf10();
    assert ISO8601_FORMAT == ISO_START + ":%S%z" && ":%S%z" == Directive(":", 'S', "%z") && "%z" == Directive("", 'z', "");
    IsoStart(":%S%z", ":%S%z", d, t, w, tzd);
    NumberRound(":", 'S', 'S', "%z", "%z", d, t, w, tzd, Through('M', d, t), t.second);
    ZoneEnd("", 'z', d, t, w, tzd, Through('S', d, t));
    assert "" + TzdISO(tzd) == TzdISO(tzd);
    IsoZone(tzd);
  }

  lemma IsoZone(tzd: int)
    ensures TzdISO(tzd) == "" + ZoneText(tzd, "Z", ":")
    ensures ReadZone(TzdISO(tzd)) == (if tzd == UTC then 0 else tzd) <==> IsPrintableZone(tzd)
  {
    hide Format0, ReadZone;
    ZoneRoundTrip(tzd, "", "Z", ":");
    assert TzdISO(tzd) == "" + ZoneText(tzd, "Z", ":");
  }

  /** Seconds and their fraction, down to the microsecond. */
  lemma FractionPiece(f: Fields, second: nat, millis: nat, micros: nat, tail: string)
    requires second < 60 && millis < 1000 && micros < 1000 && f.second == 0 && f.millis == 0 && f.micros == 0
    requires tail == "" || !IsDigit(tail[0])
    ensures ParsePiece('s', f, ":" + Format0(second, 2) + ("." + (Format0(millis, 3) + (Format0(micros, 3) + tail))))
         == Parsed(f.(second := second, millis := millis, micros := micros), tail)
  {
    hide Format0, Number, Fraction, Skip;
    PowersOf10();
    var fraction := Format0(millis, 3) + (Format0(micros, 3) + tail);
    ReadNumber(":", second, 2, "." + fraction);
    ReadsBack(millis, 3, Format0(micros, 3) + tail);
    ReadsBack(micros, 3, tail);
    assert ("." + fraction)[1..] == fraction;
    NothingToSkip(IsDigit, tail);
  }

  lemma FractionText(d: Date, t: TimeOfDay, w: WeekdayIndex, tzd: int)
    requires IsValid(d, t)
    ensures FormatText(":%s%z", d, t, w, tzd)
         == ":" + Format0(t.second, 2) + ("." + (Format0(t.millisecond, 3) + (Format0(t.microsecond, 3) + FormatText("%z", d, t, w, tzd))))
  {
    hide Format0, TzdISO, FormatText;
    assert ":%s%z" == Directive(":", 's', "%z");
    FormatDirective(":", 's', "%z", d, t, w, tzd);
    SixDigits(t.millisecond, t.microsecond);
    var a, b, c, zone := Format0(t.second, 2), Format0(t.millisecond, 3), Format0(t.microsecond, 3), FormatText("%z", d, t, w, tzd);
    assert ":" + (a + "." + (b + c)) + zone == ":" + a + ("." + (b + (c + zone)));
  }

  lemma ZoneStart(d: Date, t: TimeOfDay, w: WeekdayIndex, tzd: int)
    requires 1 <= d.month <= 12
    ensures FormatText("%z", d, t, w, tzd) == TzdISO(tzd)
    ensures TzdISO(tzd) != "" && !IsDigit(TzdISO(tzd)[0])
  {
    hide TzdISO, FormatText;
    assert "%z" == Directive("", 'z', "");
    FormatDirective("", 'z', "", d, t, w, tzd);
    NothingFormatted(d, t, w, tzd);
    TzdISOStart(tzd);
  }

  lemma NothingFormatted(d: Date, t: TimeOfDay, w: WeekdayIndex, tzd: int)
    requires 1 <= d.month <= 12
    ensures FormatText("", d, t, w, tzd) == ""
  {
  }

  lemma FractionRound(d: Date, t: TimeOfDay, w: WeekdayIndex, tzd: int, f: Fields)
    requires IsValid(d, t) && f.second == 0 && f.millis == 0 && f.micros == 0
    ensures ParseFields(":%s%z", f, FormatText(":%s%z", d, t, w, tzd))
         == ParseFields("%z", f.(second := t.second, millis := t.millisecond, micros := t.microsecond), FormatText("%z", d, t, w, tzd))
  {
    hide ParseFields, Format0, ParsePiece, TzdISO, FormatText;
    assert ":%s%z" == Directive(":", 's', "%z");
    FractionText(d, t, w, tzd);
    ZoneStart(d, t, w, tzd);
    ParseDirective(":", 's', "%z", f, FormatText(":%s%z", d, t, w, tzd));
    FractionPiece(f, t.second, t.millisecond, t.microsecond, FormatText("%z", d, t, w, tzd));
  }

  lemma TzdISOStart(tzd: int)
    ensures TzdISO(tzd) != "" && !IsDigit(TzdISO(tzd)[0])
    ensures "" + TzdISO(tzd) + "" == TzdISO(tzd)
  {
  }

  lemma SixDigits(millis: nat, micros: nat)
    requires millis < 1000 && micros < 1000
    ensures Format0(millis * 1000 + micros, 6) == Format0(millis, 3) + Format0(micros, 3)
  {
    PowersOf10();
    Format0IsFixed(millis * 1000 + micros, 6);
    Format0IsFixed(millis, 3);
    Format0IsFixed(micros, 3);
    FixedSplits(millis, micros, 3);
  }

  lemma {:induction false} FixedSplits(high: nat, low: nat, width: nat)
    requires low < Pow(10, width)
    ensures Fixed(high * Pow(10, width) + low, 3 + width) == Fixed(high, 3) + Fixed(low, width)
  {
    if width == 0 {
      assert Fixed(high, 3) + "" == Fixed(high, 3);
    } else {
      var q := Pow(10, width - 1);
      assert Pow(10, width) == 10 * q;
      hide Pow;
      ShiftedOut(high, q, low);
      FixedSplits(high, low / 10, width - 1);
      assert Fixed(high, 3) + (Fixed(low / 10, width - 1) + [Digit(low % 10)]) == Fixed(high, 3) + Fixed(low, width);
    }
  }

  lemma ShiftedOut(high: nat, q: nat, low: nat)
    ensures var n := high * (10 * q) + low; n / 10 == high * q + low / 10 && n % 10 == low % 10
  {
    var p := high * q;
    assert high * (10 * q) == 10 * p;
    TenTimes(p, low);
  }

  lemma TenTimes(p: nat, low: nat)
    ensures (10 * p + low) / 10 == p + low / 10 && (10 * p + low) % 10 == low % 10
  {
  }

  /** In the format with a fraction, a date is read back to the microsecond. */
  lemma Iso8601FracRoundTrip(d: Date, t: TimeOfDay, w: WeekdayIndex, tzd: int)
    requires IsValid(d, t)
    ensures ParseText(ISO8601_FRAC_FORMAT, FormatText(ISO8601_FRAC_FORMAT, d, t, w, tzd))
         == DateRead(d, t, ReadZone(TzdISO(tzd)))
    ensures ReadZone(TzdISO(tzd)) == (if tzd == UTC then 0 else tzd) <==> IsPrintableZone(tzd)
  {
    hide ParseFields, FormatText, ReadZone, ParseTZD, TzdISO;
    assert ISO8601_FRAC_FORMAT == ISO_START + ":%s%z" && "%z" == Directive("", 'z', "");
    IsoStart(":%s%z", ":%s%z", d, t, w, tzd);
    FractionRound(d, t, w, tzd, Through('M', d, t));
    var f := Through('S', d, t).(millis := t.millisecond, micros := t.microsecond);
    ZoneEnd("", 'z', d, t, w, tzd, f);
    assert "" + TzdISO(tzd) == TzdISO(tzd);
    IsoZone(tzd);
  }

  // The HTTP date

  lemma MonthPrefixes(m: nat, k: nat)
    requires m < 12 && k < 12 && m != k
    ensures !(MONTH_NAMES[m][..3] <= MONTH_NAMES[k])
  {
    var a, b := MONTH_NAMES[m], MONTH_NAMES[k];
    MonthLetters(m, k);
    assert a[..3][0] == a[0] && a[..3][1] == a[1] && a[..3][2] == a[2];
  }

  lemma MonthLetters(m: nat, k: nat)
    requires m < 12 && k < 12 && m != k
    ensures MONTH_NAMES[m][0] != MONTH_NAMES[k][0] || MONTH_NAMES[m][1] != MONTH_NAMES[k][1] || MONTH_NAMES[m][2] != MONTH_NAMES[k][2]
  {
  }

  lemma {:induction false} MonthFound(i: nat, m: nat)
    requires i <= m < 12
    ensures MonthFrom(i, MONTH_NAMES[m][..3]) == m + 1
    decreases m - i
  {
    if i < m {
      MonthPrefixes(m, i);
      MonthFound(i + 1, m);
    } else {
      assert MONTH_NAMES[m][..3] <= MONTH_NAMES[m];
    }
  }

  lemma MonthNameLetters(m: nat)
    requires m < 12
    ensures forall i :: 0 <= i < 3 ==> IsAlpha(MONTH_NAMES[m][i])
    ensures Capitalized(MONTH_NAMES[m][..3]) == MONTH_NAMES[m][..3]
  {
    var name := MONTH_NAMES[m];
    assert 'A' <= name[0] <= 'Z' && 'a' <= name[1] <= 'z' && 'a' <= name[2] <= 'z';
    assert name[..3][0] == name[0] && name[..3][1] == name[1] && name[..3][2] == name[2];
  }

  /** A month's three letters are read as that month. */
  lemma MonthRead(month: int, f: Fields, sep: string, tail: string)
    requires 1 <= month <= 12 && IsSeparator(sep) && tail != "" && tail[0] == sep[0]
    ensures ParseMonth(f, sep + MonthName(month)[..3] + tail) == Parsed(f.(month := month), tail)
  {
    hide Skip, Take, Capitalized, MonthFrom, MonthName;
    var name := MonthName(month)[..3];
    MonthNameIs(month);
    MonthNameLetters(month - 1);
    MonthFound(0, month - 1);
    assert sep + name + tail == sep + (name + tail);
    assert (name + tail)[0] == MONTH_NAMES[month - 1][0];
    PrefixIs(IsSpaceOrPunct, sep, name + tail);
    PrefixIs(IsAlpha, name, tail);
  }

  lemma MonthNameIs(month: int)
    requires 1 <= month <= 12
    ensures MonthName(month) == MONTH_NAMES[month - 1] && |MONTH_NAMES[month - 1]| >= 3
  {
  }

  predicate IsSeparator(sep: string) {
    sep == " " || sep == "-"
  }

  /** A weekday in three letters or in full. */
  function WeekdayText(letter: char, w: WeekdayIndex): (name: string)
    ensures |name| == 3 || 6 <= |name| <= 9
  {
    if letter == 'w' then WeekdayName(w)[..3] else WeekdayName(w)
  }

  lemma WeekdayLetters(letter: char, w: WeekdayIndex)
    ensures forall i :: 0 <= i < |WeekdayText(letter, w)| ==> IsAlpha(WeekdayText(letter, w)[i])
  {
    var name := WEEKDAY_NAMES[w];
    assert IsAlpha(name[0]) && IsAlpha(name[1]) && IsAlpha(name[2]);
    assert forall i :: 0 <= i < |name| ==> IsAlpha(name[i]);
  }

  lemma WeekdaySkipped(letter: char, w: WeekdayIndex, tail: string)
    requires tail != "" && (tail[0] == ',' || tail[0] == ' ')
    ensures Skip(IsAlpha, Skip(IsSpace, WeekdayText(letter, w) + tail)) == tail
  {
    hide Skip, WeekdayText;
    var name := WeekdayText(letter, w);
    WeekdayLetters(letter, w);
    assert (name + tail)[0] == name[0];
    NothingToSkip(IsSpace, name + tail);
    PrefixIs(IsAlpha, name, tail);
  }

  /** The formats with a comma behind the weekday: it is printed by w or W, the day by d or e, the year by y or Y,
      and the parts of the date are separated by spaces or hyphens. */
  datatype Style = Style(weekday: char, day: char, sep: string, year: char) {
    predicate Valid() {
      weekday in {'w', 'W'} && day in {'d', 'e'} && IsSeparator(sep) && year in {'y', 'Y'}
    }
  }

  const TIME_FORMAT := " %H:%M:%S %Z"

  function FromYear(style: Style): string { Directive(style.sep, style.year, TIME_FORMAT) }

  function FromMonth(style: Style): string { Directive(style.sep, 'b', FromYear(style)) }

  function FromDay(style: Style): string { Directive(", ", style.day, FromMonth(style)) }

  function StyleFormat(style: Style): string { Directive("", style.weekday, FromDay(style)) }

  const HTTP_STYLE := Style('w', 'd', " ", 'Y')

  lemma HttpStyle()
    ensures HTTP_FORMAT == StyleFormat(HTTP_STYLE)
  {
  }

  lemma Rfc822Style()
    ensures RFC822_FORMAT == StyleFormat(Style('w', 'e', " ", 'y'))
  {
  }

  lemma Rfc1123Style()
    ensures RFC1123_FORMAT == StyleFormat(Style('w', 'e', " ", 'Y'))
  {
  }

  lemma Rfc850Style()
    ensures RFC850_FORMAT == StyleFormat(Style('W', 'e', "-", 'y'))
  {
  }

  lemma Rfc1036Style()
    ensures RFC1036_FORMAT == StyleFormat(Style('W', 'e', " ", 'y'))
  {
  }

  lemma ReaderStyle()
    ensures RFC_FORMAT == StyleFormat(Style('w', 'e', " ", 'r'))
  {
  }

  lemma FullReaderStyle()
    ensures FULL_RFC_FORMAT == StyleFormat(Style('W', 'e', " ", 'r'))
  {
  }

  /** Five of the formats are of this kind, and two with which they are read. */
  lemma Styles()
    ensures HTTP_FORMAT == StyleFormat(HTTP_STYLE)
    ensures RFC822_FORMAT == StyleFormat(Style('w', 'e', " ", 'y')) && RFC1123_FORMAT == StyleFormat(Style('w', 'e', " ", 'Y'))
    ensures RFC850_FORMAT == StyleFormat(Style('W', 'e', "-", 'y')) && RFC1036_FORMAT == StyleFormat(Style('W', 'e', " ", 'y'))
    ensures RFC_FORMAT == StyleFormat(Style('w', 'e', " ", 'r')) && FULL_RFC_FORMAT == StyleFormat(Style('W', 'e', " ", 'r'))
  {
    hide StyleFormat;
    HttpStyle();
    Rfc822Style();
    Rfc1123Style();
    Rfc850Style();
    Rfc1036Style();
    ReaderStyle();
    FullReaderStyle();
  }

  function Reader(style: Style): Style {
    Style(style.weekday, 'e', " ", 'r')
  }

  lemma HttpTimes()
    ensures " %H:%M:%S %Z" == Directive(" ", 'H', ":%M:%S %Z")
    ensures ":%M:%S %Z" == Directive(":", 'M', ":%S %Z") && ":%S %Z" == Directive(":", 'S', " %Z") && " %Z" == Directive(" ", 'Z', "")
  {
  }

  /** A text that a literal opens. */
  lemma StartsWith(before: string, c: char, rest: string, d: Date, t: TimeOfDay, w: WeekdayIndex, tzd: int)
    requires 1 <= d.month <= 12 && IsLiteral(before) && before != ""
    ensures var text := FormatText(Directive(before, c, rest), d, t, w, tzd); text != "" && text[0] == before[0]
  {
    FormatDirective(before, c, rest, d, t, w, tzd);
  }

  lemma WeekdayRead(style: Style, d: Date, t: TimeOfDay, w: WeekdayIndex, tzd: int)
    requires 1 <= d.month <= 12 && style.Valid()
    ensures var tail, text := FormatText(FromDay(style), d, t, w, tzd), FormatText(StyleFormat(style), d, t, w, tzd);
            && text == WeekdayText(style.weekday, w) + tail && tail != "" && tail[0] == ','
            && ParseFields(StyleFormat(Reader(style)), NO_FIELDS, text) == ParseFields(FromDay(Reader(style)), NO_FIELDS, tail)
  {
    hide ParseFields, FormatText, Directive, Skip, WeekdayName, Format0, Signed, Format, TzdISO, TzdRFC, FromMonth;
    var tail := FormatText(FromDay(style), d, t, w, tzd);
    FormatDirective("", style.weekday, FromDay(style), d, t, w, tzd);
    StartsWith(", ", style.day, FromMonth(style), d, t, w, tzd);
    var text := WeekdayText(style.weekday, w) + tail;
    assert "" + WeekdayText(style.weekday, w) + tail == text;
    WeekdaySkipped(style.weekday, w, tail);
    hide Piece, WeekdayText;
    ParseDirective("", style.weekday, FromDay(Reader(style)), NO_FIELDS, text);
  }

  /** Such a text is told from the others by its comma. */
  lemma StyleDetected(style: Style, text: string, w: WeekdayIndex, tail: string)
    requires style.Valid() && text == WeekdayText(style.weekday, w) + tail && tail != "" && tail[0] == ','
    ensures DetectedFormat(text) == StyleFormat(Reader(style))
  {
    hide StyleFormat, WeekdayText;
    Styles();
    WeekdayLetters(style.weekday, w);
    var name := WeekdayText(style.weekday, w);
    WeekdayTextLength(style.weekday, w);
    assert text[|name|] == ',';
    if style.weekday == 'W' {
      assert text[3] == name[3];
      assert text[..if |text| < 10 then |text| else 10][|name|] == ',';
    }
  }

  lemma WeekdayTextLength(letter: char, w: WeekdayIndex)
    ensures |WeekdayText(letter, w)| == 3 <==> letter == 'w'
  {
  }

  lemma ReadUnpadded(before: string, n: nat, width: nat, tail: string)
    requires IsLiteral(before) && n < Pow(10, width) && width > 0 && (tail == "" || !IsDigit(tail[0]))
    ensures Number(Skip(IsJunk, before + Decimal(n) + tail), width, 0) == (n, tail)
  {
    hide Number, Skip, Decimal;
    DecimalFits(n, width);
    assert Padded(n, 0) == Decimal(n);
    ReadsPadded(n, 0, width, tail);
    assert before + Decimal(n) + tail == before + (Decimal(n) + tail);
    PrefixIs(IsJunk, before, Decimal(n) + tail);
  }

  lemma DayRead(style: Style, d: Date, t: TimeOfDay, w: WeekdayIndex, tzd: int)
    requires IsDate(d) && style.Valid()
    ensures ParseFields(FromDay(Reader(style)), NO_FIELDS, FormatText(FromDay(style), d, t, w, tzd))
         == ParseFields(FromMonth(Reader(style)), NO_FIELDS.(day := d.day), FormatText(FromMonth(style), d, t, w, tzd))
  {
    hide ParseFields, FormatText, Directive, Format0, Decimal, Number, Skip;
    PowersOf10();
    var tail := FormatText(FromMonth(style), d, t, w, tzd);
    StartsWith(style.sep, 'b', FromYear(style), d, t, w, tzd);
    FormatDirective(", ", style.day, FromMonth(style), d, t, w, tzd);
    var piece := if style.day == 'd' then Format0(d.day, 2) else Decimal(d.day);
    ReadNumber(", ", d.day, 2, tail);
    ReadUnpadded(", ", d.day, 2, tail);
    ParseDirective(", ", 'e', FromMonth(Reader(style)), NO_FIELDS, ", " + piece + tail);
  }

  function YearRead(year: int): int {
    if year < 1000 then WithCentury(year) else year
  }

  function YearShown(letter: char, year: int): int {
    if letter == 'y' then Remainder(year, 100) else year
  }

  lemma YearPieceRead(f: Fields, before: string, year: int, width: nat, tail: string)
    requires IsLiteral(before) && f.year == 0 && width > 0 && tail != "" && tail[0] == ' '
    ensures ParsePiece('r', f, before + Format0(year, width) + tail) == Parsed(f.(year := YearRead(Size(year))), tail)
  {
    hide Format0, Number, Skip, Padded;
    var digits := Padded(Size(year), if year >= 0 then width else width - 1);
    var junk := before + if year >= 0 then "" else "-";
    ReadsSize(year, width, |digits| + |tail|, tail);
    assert before + Format0(year, width) + tail == junk + (digits + tail);
    PrefixIs(IsJunk, junk, digits + tail);
  }

  /** The month by its name, and the year with however many digits it has. */
  lemma MonthAndYearRead(style: Style, d: Date, t: TimeOfDay, w: WeekdayIndex, tzd: int, f: Fields)
    requires 1 <= d.month <= 12 && style.Valid() && f.year == 0
    ensures ParseFields(FromMonth(Reader(style)), f, FormatText(FromMonth(style), d, t, w, tzd))
         == ParseFields(TIME_FORMAT, f.(month := d.month, year := YearRead(Size(YearShown(style.year, d.year)))),
                        FormatText(TIME_FORMAT, d, t, w, tzd))
  {
    hide ParseFields, FormatText, Directive, Format0, Skip, MonthName, ParseMonth, Number, Remainder;
    HttpTimes();
    var year, r1, r2 := YearShown(style.year, d.year), FormatText(FromYear(style), d, t, w, tzd), FormatText(TIME_FORMAT, d, t, w, tzd);
    var width := if style.year == 'y' then 2 else 4;
    StartsWith(style.sep, style.year, TIME_FORMAT, d, t, w, tzd);
    StartsWith(" ", 'H', ":%M:%S %Z", d, t, w, tzd);
    FormatDirective(style.sep, 'b', FromYear(style), d, t, w, tzd);
    FormatDirective(style.sep, style.year, TIME_FORMAT, d, t, w, tzd);
    MonthRead(d.month, f, style.sep, r1);
    ParseDirective(" ", 'b', FromYear(Reader(style)), f, style.sep + MonthName(d.month)[..3] + r1);
    YearPieceRead(f.(month := d.month), style.sep, year, width, r2);
    ParseDirective(" ", 'r', TIME_FORMAT, f.(month := d.month), style.sep + Format0(year, width) + r2);
  }

  /** The time, whose parts lose their signs. */
  lemma HttpTime(d: Date, t: TimeOfDay, w: WeekdayIndex, tzd: int, f: Fields)
    requires 1 <= d.month <= 12 && -24 < t.hour < 24 && -60 < t.minute < 60 && -60 < t.second < 60
    requires f.hour == 0 && f.minute == 0 && f.second == 0
    ensures var read := ParseFields(" %H:%M:%S %Z", f, FormatText(" %H:%M:%S %Z", d, t, w, tzd));
            read.Parsed? && read.fields
            == f.(hour := Size(t.hour), minute := Size(t.minute), second := Size(t.second), tzd := ReadZone(" " + TzdRFC(tzd)))
  {
    hide ParseFields, FormatText, Directive, Format0, ReadZone, ParseTZD, TzdRFC;
    HttpTimes();
    PowersOf10();
    var f1 := f.(hour := Size(t.hour));
    var f2 := f1.(minute := Size(t.minute));
    StartsWith(":", 'M', ":%S %Z", d, t, w, tzd);
    StartsWith(":", 'S', " %Z", d, t, w, tzd);
    StartsWith(" ", 'Z', "", d, t, w, tzd);
    NumberRound(" ", 'H', 'H', ":%M:%S %Z", ":%M:%S %Z", d, t, w, tzd, f, t.hour);
    NumberRound(":", 'M', 'M', ":%S %Z", ":%S %Z", d, t, w, tzd, f1, t.minute);
    NumberRound(":", 'S', 'S', " %Z", " %Z", d, t, w, tzd, f2, t.second);
    ZoneEnd(" ", 'Z', d, t, w, tzd, f2.(second := Size(t.second)));
  }

  /** What the parser that finds the format out makes of such a text, for any fields the printer may be given. */
  lemma StyleRead(style: Style, d: Date, t: TimeOfDay, w: WeekdayIndex, tzd: int)
    requires IsDate(d) && -24 < t.hour < 24 && -60 < t.minute < 60 && -60 < t.second < 60 && style.Valid()
    ensures ParseAny(FormatText(StyleFormat(style), d, t, w, tzd))
         == Assembled(Fields(YearRead(Size(YearShown(style.year, d.year))), d.month, d.day,
                             Size(t.hour), Size(t.minute), Size(t.second), 0, 0, ReadZone(" " + TzdRFC(tzd))))
  {
    hide ParseFields, FormatText, ReadZone, TzdRFC, Assembled, YearShown, FromDay, FromMonth, DetectedFormat, WeekdayText;
    var text := FormatText(StyleFormat(style), d, t, w, tzd);
    WeekdayRead(style, d, t, w, tzd);
    StyleDetected(style, text, w, FormatText(FromDay(style), d, t, w, tzd));
    DayRead(style, d, t, w, tzd);
    var f := NO_FIELDS.(day := d.day);
    MonthAndYearRead(style, d, t, w, tzd, f);
    HttpTime(d, t, w, tzd, f.(month := d.month, year := YearRead(Size(YearShown(style.year, d.year)))));
  }

  /** The years that come back: with all digits a smaller one is taken for a year without a century, and without a
      century they are those of the hundred years from 1969. */
  predicate YearReturns(letter: char, year: int) {
    if letter == 'y' then 1969 <= year <= 2068 else year >= 1000
  }

  /** A date in one of the five formats, read by the parser that finds the format out, comes back to the second
      exactly if its year is one that returns. */
  lemma StyleRoundTrip(style: Style, d: Date, t: TimeOfDay, w: WeekdayIndex, tzd: int)
    requires IsValid(d, t) && style.Valid()
    ensures var truncated := DateRead(d, t.(millisecond := 0, microsecond := 0), ReadZone(" " + TzdRFC(tzd)));
            ParseAny(FormatText(StyleFormat(style), d, t, w, tzd)) == truncated <==> YearReturns(style.year, d.year)
    ensures ReadZone(" " + TzdRFC(tzd)) == (if tzd == UTC then 0 else tzd) <==> IsPrintableZone(tzd)
  {
    hide ParseAny, FormatText, ReadZone, TzdRFC, StyleFormat;
    StyleRead(style, d, t, w, tzd);
    RfcZone(tzd);
  }

  lemma RfcZone(tzd: int)
    ensures ReadZone(" " + TzdRFC(tzd)) == (if tzd == UTC then 0 else tzd) <==> IsPrintableZone(tzd)
  {
    hide Format0, ReadZone;
    ZoneRoundTrip(tzd, " ", "GMT", "");
    assert TzdRFC(tzd) == ZoneText(tzd, "GMT", "");
  }

  // The formats without a comma

  /** A text of digits and of the characters given. */
  predicate Uses(text: string, chars: set<char>) {
    forall i :: 0 <= i < |text| ==> IsDigit(text[i]) || text[i] in chars
  }

  lemma UsesNumber(before: string, c: char, rest: string, d: Date, t: TimeOfDay, w: WeekdayIndex, tzd: int,
                   n: nat, width: nat, chars: set<char>)
    requires 1 <= d.month <= 12 && IsLiteral(before) && Uses(before, chars) && Uses(FormatText(rest, d, t, w, tzd), chars)
    requires Piece(c, d, t, w, tzd) == Format0(n, width) && n < Pow(10, width) && width > 0
    ensures var text := FormatText(Directive(before, c, rest), d, t, w, tzd);
            && Uses(text, chars) && |text| == |before| + width + |FormatText(rest, d, t, w, tzd)|
            && forall i :: |before| <= i < |before| + width ==> IsDigit(text[i])
  {
    hide Piece, FormatText, Format0;
    FormatDirective(before, c, rest, d, t, w, tzd);
    Format0IsFixed(n, width);
  }

  const ISO_CHARS := {'-', ':', 'T', 'Z', '+'}

  lemma ZoneUses(tzd: int)
    ensures Uses(TzdISO(tzd), ISO_CHARS)
  {
    hide Format0;
    if tzd != UTC {
      var size := if tzd >= 0 then tzd else -tzd;
      Format0IsDigits(size / 3600, 2);
      Format0IsDigits(size % 3600 / 60, 2);
    }
  }

  lemma IsoUses(rest: string, d: Date, t: TimeOfDay, w: WeekdayIndex, tzd: int, chars: set<char>)
    requires IsValid(d, t) && ISO_CHARS <= chars && Uses(FormatText(rest, d, t, w, tzd), chars)
    ensures var text := FormatText(ISO_START + rest, d, t, w, tzd);
            Uses(text, chars) && |text| > 10 && IsDigit(text[0]) && IsDigit(text[3])
  {
    hide FormatText, Directive, Format0;
    PowersOf10();
    IsoDirectives(rest);
    UsesNumber(":", 'M', rest, d, t, w, tzd, t.minute, 2, chars);
    UsesNumber("T", 'H', ":%M" + rest, d, t, w, tzd, t.hour, 2, chars);
    UsesNumber("-", 'd', "T%H:%M" + rest, d, t, w, tzd, d.day, 2, chars);
    UsesNumber("-", 'm', "-%dT%H:%M" + rest, d, t, w, tzd, d.month, 2, chars);
    UsesNumber("", 'Y', "-%m-%dT%H:%M" + rest, d, t, w, tzd, d.year, 4, chars);
  }

  /** Such a text is told by its blank or its point. */
  lemma NumbersDetected(text: string, chars: set<char>)
    requires Uses(text, chars) && ',' !in chars && |text| > 10 && IsDigit(text[0]) && IsDigit(text[3])
    ensures DetectedFormat(text)
         == if ' ' in text then SORTABLE_FORMAT else if '.' in text then ISO8601_FRAC_FORMAT else ISO8601_FORMAT
  {
    assert ',' !in text;
  }

  /** The format of ISO 8601 is found out, and the date comes back to the second. */
  lemma Iso8601Detected(d: Date, t: TimeOfDay, w: WeekdayIndex, tzd: int)
    requires IsValid(d, t)
    ensures ParseAny(FormatText(ISO8601_FORMAT, d, t, w, tzd))
         == DateRead(d, t.(millisecond := 0, microsecond := 0), ReadZone(TzdISO(tzd)))
  {
    hide FormatText, ReadZone, TzdISO, ParseText, DetectedFormat;
    var text := FormatText(ISO8601_FORMAT, d, t, w, tzd);
    assert ISO8601_FORMAT == ISO_START + ":%S%z" && ":%S%z" == Directive(":", 'S', "%z");
    PowersOf10();
    ZoneStart(d, t, w, tzd);
    ZoneUses(tzd);
    UsesNumber(":", 'S', "%z", d, t, w, tzd, t.second, 2, ISO_CHARS);
    IsoUses(":%S%z", d, t, w, tzd, ISO_CHARS);
    NumbersDetected(text, ISO_CHARS);
    assert ' ' !in text && '.' !in text;
    Iso8601RoundTrip(d, t, w, tzd);
  }

  /** So is the format with a fraction, and the date comes back to the microsecond. */
  lemma Iso8601FracDetected(d: Date, t: TimeOfDay, w: WeekdayIndex, tzd: int)
    requires IsValid(d, t)
    ensures ParseAny(FormatText(ISO8601_FRAC_FORMAT, d, t, w, tzd)) == DateRead(d, t, ReadZone(TzdISO(tzd)))
  {
    hide FormatText, ReadZone, TzdISO, ParseText, DetectedFormat;
    var text, chars := FormatText(ISO8601_FRAC_FORMAT, d, t, w, tzd), ISO_CHARS + {'.'};
    assert ISO8601_FRAC_FORMAT == ISO_START + ":%s%z";
    FractionUses(d, t, w, tzd, chars);
    IsoUses(":%s%z", d, t, w, tzd, chars);
    IsoEnds(":%s%z", d, t, w, tzd);
    NumbersDetected(text, chars);
    assert ' ' !in text;
    Iso8601FracRoundTrip(d, t, w, tzd);
  }

  lemma FractionUses(d: Date, t: TimeOfDay, w: WeekdayIndex, tzd: int, chars: set<char>)
    requires IsValid(d, t) && chars == ISO_CHARS + {'.'}
    ensures Uses(FormatText(":%s%z", d, t, w, tzd), chars) && '.' in FormatText(":%s%z", d, t, w, tzd)
  {
    hide FormatText, Format0, TzdISO;
    FractionText(d, t, w, tzd);
    ZoneStart(d, t, w, tzd);
    ZoneUses(tzd);
    Format0IsDigits(t.second, 2);
    Format0IsDigits(t.millisecond, 3);
    Format0IsDigits(t.microsecond, 3);
  }

  /** What follows the start of the format follows in the text. */
  lemma IsoEnds(rest: string, d: Date, t: TimeOfDay, w: WeekdayIndex, tzd: int)
    requires 1 <= d.month <= 12
    ensures forall c :: c in FormatText(rest, d, t, w, tzd) ==> c in FormatText(ISO_START + rest, d, t, w, tzd)
  {
    hide FormatText, Directive, Piece;
    IsoDirectives(rest);
    FormatDirective(":", 'M', rest, d, t, w, tzd);
    FormatDirective("T", 'H', ":%M" + rest, d, t, w, tzd);
    FormatDirective("-", 'd', "T%H:%M" + rest, d, t, w, tzd);
    FormatDirective("-", 'm', "-%dT%H:%M" + rest, d, t, w, tzd);
    FormatDirective("", 'Y', "-%m-%dT%H:%M" + rest, d, t, w, tzd);
  }

  lemma SortableDirectives()
    ensures SORTABLE_FORMAT == Directive("", 'Y', "-%m-%d %H:%M:%S")
    ensures "-%m-%d %H:%M:%S" == Directive("-", 'm', "-%d %H:%M:%S") && "-%d %H:%M:%S" == Directive("-", 'd', " %H:%M:%S")
    ensures " %H:%M:%S" == Directive(" ", 'H', ":%M:%S") && ":%M:%S" == Directive(":", 'M', ":%S") && ":%S" == Directive(":", 'S', "")
  {
  }

  /** The sortable format is found out by its blank; it has no zone. */
  lemma SortableDetected(d: Date, t: TimeOfDay, w: WeekdayIndex, tzd: int)
    requires IsValid(d, t)
    ensures ParseAny(FormatText(SORTABLE_FORMAT, d, t, w, tzd)) == DateRead(d, t.(millisecond := 0, microsecond := 0), 0)
  {
    hide FormatText, ParseFields, DetectedFormat, Directive, Format0;
    var chars := {'-', ':', ' '};
    var text, tail := FormatText(SORTABLE_FORMAT, d, t, w, tzd), FormatText(" %H:%M:%S", d, t, w, tzd);
    PowersOf10();
    SortableDirectives();
    NothingFormatted(d, t, w, tzd);
    UsesNumber(":", 'S', "", d, t, w, tzd, t.second, 2, chars);
    UsesNumber(":", 'M', ":%S", d, t, w, tzd, t.minute, 2, chars);
    UsesNumber(" ", 'H', ":%M:%S", d, t, w, tzd, t.hour, 2, chars);
    UsesNumber("-", 'd', " %H:%M:%S", d, t, w, tzd, d.day, 2, chars);
    UsesNumber("-", 'm', "-%d %H:%M:%S", d, t, w, tzd, d.month, 2, chars);
    UsesNumber("", 'Y', "-%m-%d %H:%M:%S", d, t, w, tzd, d.year, 4, chars);
    SortableBlank(d, t, w, tzd);
    NumbersDetected(text, chars);
    SortableRead(d, t, w, tzd);
  }

  lemma SortableBlank(d: Date, t: TimeOfDay, w: WeekdayIndex, tzd: int)
    requires 1 <= d.month <= 12
    ensures ' ' in FormatText(SORTABLE_FORMAT, d, t, w, tzd)
  {
    hide FormatText, Directive, Piece;
    SortableDirectives();
    StartsWith(" ", 'H', ":%M:%S", d, t, w, tzd);
    FormatDirective("-", 'd', " %H:%M:%S", d, t, w, tzd);
    FormatDirective("-", 'm', "-%d %H:%M:%S", d, t, w, tzd);
    FormatDirective("", 'Y', "-%m-%d %H:%M:%S", d, t, w, tzd);
  }

  lemma SortableRead(d: Date, t: TimeOfDay, w: WeekdayIndex, tzd: int)
    requires IsValid(d, t)
    ensures ParseFields(SORTABLE_FORMAT, NO_FIELDS, FormatText(SORTABLE_FORMAT, d, t, w, tzd)) == Parsed(Through('S', d, t), "")
  {
    hide ParseFields, FormatText, Directive, Format0;
    PowersOf10();
    SortableDirectives();
    NothingFormatted(d, t, w, tzd);
    NothingParsed(Through('S', d, t));
    NumberRound("", 'Y', 'Y', "-%m-%d %H:%M:%S", "-%m-%d %H:%M:%S", d, t, w, tzd, NO_FIELDS, d.year);
    NumberRound("-", 'm', 'm', "-%d %H:%M:%S", "-%d %H:%M:%S", d, t, w, tzd, Through('Y', d, t), d.month);
    NumberRound("-", 'd', 'd', " %H:%M:%S", " %H:%M:%S", d, t, w, tzd, Through('m', d, t), d.day);
    NumberRound(" ", 'H', 'H', ":%M:%S", ":%M:%S", d, t, w, tzd, Through('d', d, t), t.hour);
    NumberRound(":", 'M', 'M', ":%S", ":%S", d, t, w, tzd, Through('H', d, t), t.minute);
    NumberRound(":", 'S', 'S', "", "", d, t, w, tzd, Through('M', d, t), t.second);
  }

  lemma AsctimeDirectives()
    ensures ASCTIME_FORMAT == Directive("", 'w', " %b %f %H:%M:%S %Y")
    ensures " %b %f %H:%M:%S %Y" == Directive(" ", 'b', " %f %H:%M:%S %Y")
    ensures " %f %H:%M:%S %Y" == Directive(" ", 'f', " %H:%M:%S %Y")
    ensures " %H:%M:%S %Y" == Directive(" ", 'H', ":%M:%S %Y") && ":%M:%S %Y" == Directive(":", 'M', ":%S %Y")
    ensures ":%S %Y" == Directive(":", 'S', " %Y") && " %Y" == Directive(" ", 'Y', "")
  {
  }

  lemma AsctimeDate(d: Date, t: TimeOfDay, w: WeekdayIndex, tzd: int)
    requires IsDate(d)
    ensures var text, tail := FormatText(ASCTIME_FORMAT, d, t, w, tzd), FormatText(" %H:%M:%S %Y", d, t, w, tzd);
            && |text| >= 4 && text[3] == ' '
            && ParseFields(ASCTIME_FORMAT, NO_FIELDS, text)
               == ParseFields(" %H:%M:%S %Y", NO_FIELDS.(month := d.month, day := d.day), tail)
  {
    hide ParseFields, FormatText, Directive, Skip, WeekdayName, MonthName, ParseMonth, Number, Decimal, TzdISO, TzdRFC, Format0;
    AsctimeDirectives();
    PowersOf10();
    var r1, r2, r3 := FormatText(" %b %f %H:%M:%S %Y", d, t, w, tzd), FormatText(" %f %H:%M:%S %Y", d, t, w, tzd),
                      FormatText(" %H:%M:%S %Y", d, t, w, tzd);
    var name := WeekdayText('w', w);
    var f := NO_FIELDS.(month := d.month);
    StartsWith(" ", 'b', " %f %H:%M:%S %Y", d, t, w, tzd);
    StartsWith(" ", 'f', " %H:%M:%S %Y", d, t, w, tzd);
    StartsWith(" ", 'H', ":%M:%S %Y", d, t, w, tzd);
    FormatDirective("", 'w', " %b %f %H:%M:%S %Y", d, t, w, tzd);
    FormatDirective(" ", 'b', " %f %H:%M:%S %Y", d, t, w, tzd);
    FormatDirective(" ", 'f', " %H:%M:%S %Y", d, t, w, tzd);
    assert "" + name + r1 == name + r1 && (name + r1)[3] == r1[0];
    WeekdaySkipped('w', w, r1);
    ParseDirective("", 'w', " %b %f %H:%M:%S %Y", NO_FIELDS, name + r1);
    MonthRead(d.month, NO_FIELDS, " ", r2);
    ParseDirective(" ", 'b', " %f %H:%M:%S %Y", NO_FIELDS, r1);
    var blanks := " " + Repeat(' ', 2 - |Decimal(d.day)|);
    ReadUnpadded(blanks, d.day, 2, r3);
    assert " " + Format(d.day, 2) + r3 == blanks + Decimal(d.day) + r3;
    ParseDirective(" ", 'f', " %H:%M:%S %Y", f, r2);
  }

  /** The format of `asctime` is found out by the blank behind the weekday; it has no zone. */
  lemma AsctimeDetected(d: Date, t: TimeOfDay, w: WeekdayIndex, tzd: int)
    requires IsValid(d, t)
    ensures ParseAny(FormatText(ASCTIME_FORMAT, d, t, w, tzd)) == DateRead(d, t.(millisecond := 0, microsecond := 0), 0)
  {
    hide ParseFields, FormatText, Directive, Format0;
    PowersOf10();
    AsctimeDirectives();
    AsctimeDate(d, t, w, tzd);
    NothingFormatted(d, t, w, tzd);
    NothingParsed(Through('S', d, t));
    var f := NO_FIELDS.(month := d.month, day := d.day);
    NumberRound(" ", 'H', 'H', ":%M:%S %Y", ":%M:%S %Y", d, t, w, tzd, f, t.hour);
    NumberRound(":", 'M', 'M', ":%S %Y", ":%S %Y", d, t, w, tzd, f.(hour := t.hour), t.minute);
    NumberRound(":", 'S', 'S', " %Y", " %Y", d, t, w, tzd, f.(hour := t.hour, minute := t.minute), t.second);
    NumberRound(" ", 'Y', 'Y', "", "", d, t, w, tzd, Through('S', d, t).(year := 0), d.year);
  }

  // Letters outside those formats

  /** A year printed with two digits is read back exactly from 1969 to 2068. */
  lemma TwoDigitYearIff(d: Date, t: TimeOfDay, w: WeekdayIndex, tzd: int, f: Fields, tail: string)
    requires IsValid(d, t) && f.year == 0
    ensures var read := ParsePiece('y', f, Piece('y', d, t, w, tzd) + tail);
            read == Parsed(f.(year := d.year), tail) <==> 1969 <= d.year <= 2068
  {
    hide Format0, Number, Skip;
    PowersOf10();
    ReadNumber("", d.year % 100, 2, tail);
    assert "" + Format0(d.year % 100, 2) + tail == Format0(d.year % 100, 2) + tail;
  }

  /** An hour printed on the twelve-hour clock, with its half of the day, is read back. */
  lemma AmPmRoundTrip(d: Date, t: TimeOfDay, w: WeekdayIndex, tzd: int, half: char)
    requires IsValid(d, t) && (half == 'a' || half == 'A')
    ensures var fmt := "%h " + ['%', half];
            ParseFields(fmt, NO_FIELDS, FormatText(fmt, d, t, w, tzd)) == Parsed(NO_FIELDS.(hour := t.hour), "")
  {
    hide Format0, Number, Skip, Take, ParseFields, FormatText;
    var fmt, rest := "%h " + ['%', half], Directive(" ", half, "");
    assert fmt == Directive("", 'h', rest);
    var letters, hours := Piece(half, d, t, w, tzd), Format0(HourAMPM(t.hour), 2);
    FormatDirective("", 'h', rest, d, t, w, tzd);
    FormatDirective(" ", half, "", d, t, w, tzd);
    NothingFormatted(d, t, w, tzd);
    var tail := " " + letters;
    assert " " + letters + "" == tail && "" + hours + tail == hours + tail;
    assert FormatText(fmt, d, t, w, tzd) == hours + tail;
    PowersOf10();
    ReadNumber("", HourAMPM(t.hour), 2, tail);
    ReadsBack(HourAMPM(t.hour), 2, tail);
    ParseDirective("", 'h', rest, NO_FIELDS, hours + tail);
    HalfRead(half, d, t, w, tzd, NO_FIELDS.(hour := HourAMPM(t.hour)));
    ParseDirective(" ", half, "", NO_FIELDS.(hour := HourAMPM(t.hour)), tail);
    NothingParsed(NO_FIELDS.(hour := t.hour));
  }

  lemma NothingParsed(f: Fields)
    ensures ParseFields("", f, "") == Parsed(f, "")
  {
  }

  lemma HalfRead(half: char, d: Date, t: TimeOfDay, w: WeekdayIndex, tzd: int, f: Fields)
    requires IsValid(d, t) && (half == 'a' || half == 'A') && f.hour == HourAMPM(t.hour)
    ensures ParsePiece(half, f, " " + Piece(half, d, t, w, tzd)) == Parsed(f.(hour := t.hour), "")
  {
    hide Skip, Take;
    var letters := Piece(half, d, t, w, tzd);
    PrefixIs(IsSpaceOrPunct, " ", letters);
    assert letters + "" == letters;
    PrefixIs(IsAlpha, letters, "");
  }

  // The parser's loops, over positions in the text

  lemma SuffixStep(text: string, it: nat)
    requires it < |text|
    ensures text[it..] != "" && text[it..][0] == text[it] && text[it..][1..] == text[it + 1..]
  {
  }

  method SkipWhile(kind: char -> bool, text: string, start: nat) returns (it: nat)
    requires start <= |text|
    ensures it <= |text| && it == start + Prefix(kind, text[start..])
    ensures text[it..] == Skip(kind, text[start..]) && text[start..it] == Take(kind, text[start..])
  {
    it := start;
    while it != |text| && kind(text[it])
      invariant start <= it <= |text| && Prefix(kind, text[start..]) == it - start + Prefix(kind, text[it..])
    {
      SuffixStep(text, it);
      it := it + 1;
    }
    assert Prefix(kind, text[it..]) == 0;
    assert text[start..][it - start..] == text[it..] && text[start..][..it - start] == text[start..it];
  }

  method ReadDigits(text: string, start: nat, n: nat, soFar: int) returns (value: int, it: nat)
    requires start <= |text|
    ensures it <= |text| && (value, text[it..]) == Number(text[start..], n, soFar)
  {
    value, it := soFar, start;
    var i := 0;
    while i < n && it != |text| && IsDigit(text[it])
      invariant i <= n && it <= |text| && Number(text[it..], n - i, value) == Number(text[start..], n, soFar)
    {
      SuffixStep(text, it);
      value := value * 10 + DigitValue(text[it]);
      it := it + 1;
      i := i + 1;
    }
  }

  method ReadFraction(text: string, start: nat, n: nat, soFar: int) returns (value: int, it: nat)
    requires start <= |text|
    ensures it <= |text| && (value, text[it..]) == Fraction(text[start..], n, soFar)
  {
    value, it := soFar, start;
    var i := 0;
    while i < n && it != |text| && IsDigit(text[it])
      invariant i <= n && it <= |text| && Fraction(text[it..], n - i, value) == Fraction(text[start..], n, soFar)
    {
      SuffixStep(text, it);
      value := value * 10 + DigitValue(text[it]);
      it := it + 1;
      i := i + 1;
    }
    assert (value * Pow(10, n - i), text[it..]) == Fraction(text[start..], n, soFar);
    ghost var all := value * Pow(10, n - i);
    while i < n
      invariant i <= n && value * Pow(10, n - i) == all
    {
      TimesTen(value, Pow(10, n - i - 1));
      value := value * 10;
      i := i + 1;
    }
  }

  lemma TimesTen(value: int, power: int)
    ensures value * (10 * power) == value * 10 * power
  {
  }

  /** The name of a zone, at most four letters. */
  method ReadZoneName(text: string, start: nat) returns (tzd: int, it: nat)
    requires start <= |text|
    ensures start <= it <= |text| && tzd == (if it == start then 0 else ZoneOffset(ZONES, text[start..it]))
    ensures it - start == if |Take(IsAlpha, text[start..])| > 4 then 4 else |Take(IsAlpha, text[start..])|
  {
    hide ZoneOffset, Prefix;
    tzd, it := 0, start;
    while it < start + 4 && it != |text| && IsAlpha(text[it])
      invariant start <= it <= start + 4 && it <= |text| && forall i :: start <= i < it ==> IsAlpha(text[i])
    {
      it := it + 1;
    }
    PrefixAtLeast(text[start..], it - start);
    if it > start {
      tzd := FindZone(text[start..it]);
    }
  }

  method ReadOffset(text: string, start: nat) returns (offset: int, it: nat)
    requires start <= |text|
    ensures it <= |text| && (offset, text[it..]) == ParseOffset(text[start..])
  {
    hide Number;
    offset, it := 0, start;
    if it != |text| && (text[it] == '+' || text[it] == '-') {
      var sign := if text[it] == '+' then 1 else -1;
      SuffixStep(text, it);
      it := it + 1;
      var hours, minutes;
      hours, it := ReadDigits(text, it, 2, 0);
      if it != |text| && text[it] == ':' {
        SuffixStep(text, it);
        it := it + 1;
      }
      minutes, it := ReadDigits(text, it, 2, 0);
      offset := sign * (hours * 3600 + minutes * 60);
    }
  }

  /** `parseTZD`. */
  method ReadTZD(text: string, start: nat) returns (tzd: int, it: nat)
    requires start <= |text|
    ensures it <= |text| && (tzd, text[it..]) == ParseTZD(text[start..])
  {
    hide ZoneOffset, Skip, Take, ParseOffset;
    it := SkipWhile(IsSpace, text, start);
    var first := it;
    ghost var all := text[first..];
    tzd, it := ReadZoneName(text, it);
    assert all[..it - first] == text[first..it] && all[it - first..] == text[it..];
    var offset;
    offset, it := ReadOffset(text, it);
    tzd := tzd + offset;
  }

  /** How many of the letters at the start are taken for the zone's name. */
  lemma PrefixAtLeast(text: string, n: nat)
    requires n <= |text| && n <= 4 && (forall i :: 0 <= i < n ==> IsAlpha(text[i]))
    requires n == 4 || n == |text| || !IsAlpha(text[n])
    ensures (if Prefix(IsAlpha, text) > 4 then 4 else Prefix(IsAlpha, text)) == n
  {
  }

  method FindZone(designator: string) returns (tzd: int)
    ensures tzd == ZoneOffset(ZONES, designator)
  {
    tzd := 0;
    var i := 0;
    while i < |ZONES|
      invariant i <= |ZONES| && ZoneOffset(ZONES, designator) == ZoneOffset(ZONES[i..], designator)
    {
      ZonesStep(i, designator);
      if designator == ZONES[i].0 {
        return ZONES[i].1;
      }
      i := i + 1;
    }
  }

  lemma ZonesStep(i: nat, designator: string)
    requires i < |ZONES|
    ensures ZoneOffset(ZONES[i..], designator)
         == if ZONES[i].0 == designator then ZONES[i].1 else ZoneOffset(ZONES[i + 1..], designator)
  {
    var zones := ZONES;
    assert zones[i..][1..] == zones[i + 1..];
  }

  /** `parseMonth`; false where it throws. */
  method ReadMonth(text: string, start: nat) returns (ok: bool, month: int, it: nat)
    requires start <= |text|
    ensures var name := Skip(IsSpaceOrPunct, text[start..]);
            ok == (MonthOf(Take(IsAlpha, name)) != 0)
            && (ok ==> it <= |text| && month == MonthOf(Take(IsAlpha, name)) && text[it..] == Skip(IsAlpha, name))
  {
    hide Skip, Take, MonthFrom;
    it := SkipWhile(IsSpaceOrPunct, text, start);
    var first := it;
    it := SkipWhile(IsAlpha, text, it);
    var name := Capitalized(text[first..it]);
    ok, month := false, 0;
    if |name| >= 3 {
      var i := 0;
      while i < 12
        invariant i <= 12 && MonthFrom(i, name) == MonthFrom(0, name)
      {
        MonthFromStep(i, name);
        if name <= MONTH_NAMES[i] {
          return true, i + 1, it;
        }
        i := i + 1;
      }
      MonthFromEnd(name);
    }
  }

  lemma MonthFromStep(i: nat, name: string)
    requires i < 12
    ensures MonthFrom(i, name) == if name <= MONTH_NAMES[i] then i + 1 else MonthFrom(i + 1, name)
  {
  }

  lemma MonthFromEnd(name: string)
    ensures MonthFrom(12, name) == 0
  {
  }

  /** `parseAMPM`; false where it throws. */
  method ReadAmPm(f: Fields, text: string, start: nat) returns (ok: bool, f': Fields, it: nat)
    requires start <= |text|
    ensures match ParseAMPM(f, text[start..])
            case SyntaxError => !ok
            case Parsed(fields, rest) => ok && it <= |text| && f' == fields && text[it..] == rest
  {
    hide Skip, Take, AmPmOf;
    ok, f' := true, f;
    it := SkipWhile(IsSpaceOrPunct, text, start);
    var first := it;
    it := SkipWhile(IsAlpha, text, it);
    match AmPmOf(text[first..it])
    case Am => if f.hour == 12 { f' := f.(hour := 0); }
    case Pm => if f.hour < 12 { f' := f.(hour := f.hour + 12); }
    case Neither => ok := false;
  }

  /** The switch of `parse`; false where it throws. */
  method ReadPiece(c: char, f: Fields, text: string, start: nat) returns (ok: bool, f': Fields, it: nat)
    requires start <= |text|
    ensures match ParsePiece(c, f, text[start..])
            case SyntaxError => !ok
            case Parsed(fields, rest) => ok && it <= |text| && f' == fields && text[it..] == rest
  {
    hide Number, Skip, Take, Fraction, ParseTZD, MonthOf, ParseAMPM;
    ok, f', it := true, f, start;
    var n;
    if c == 'w' || c == 'W' {
      it := SkipWhile(IsSpace, text, it);
      it := SkipWhile(IsAlpha, text, it);
    } else if c == 'b' || c == 'B' {
      ok, n, it := ReadMonth(text, it);
      f' := f.(month := n);
    } else if c == 'a' || c == 'A' {
      ok, f', it := ReadAmPm(f, text, it);
    } else if c == 'z' || c == 'Z' {
      n, it := ReadTZD(text, it);
      f' := f.(tzd := n);
    } else if c == 's' || c == 'F' || c == 'i' || c == 'c' {
      f', it := ReadSubsecond(c, f, text, it);
    } else {
      f', it := ReadCalendar(c, f, text, it);
    }
  }

  method ReadFractionPair(f: Fields, text: string, start: nat) returns (f': Fields, it: nat)
    requires start <= |text|
    ensures it <= |text| && Parsed(f', text[it..]) == ParseFraction(f, text[start..])
  {
    var millis, micros;
    millis, it := ReadFraction(text, start, 3, f.millis);
    micros, it := ReadFraction(text, it, 3, f.micros);
    it := SkipWhile(IsDigit, text, it);
    f' := f.(millis := millis, micros := micros);
  }

  method ReadSubsecond(c: char, f: Fields, text: string, start: nat) returns (f': Fields, it: nat)
    requires start <= |text| && (c == 's' || c == 'F' || c == 'i' || c == 'c')
    ensures it <= |text| && ParsePiece(c, f, text[start..]) == Parsed(f', text[it..])
  {
    hide Number, Skip, ParseFraction;
    var n;
    f' := f;
    it := SkipWhile(IsJunk, text, start);
    if c == 'F' {
      f', it := ReadFractionPair(f, text, it);
    } else if c == 's' {
      n, it := ReadDigits(text, it, 2, f.second);
      f' := f.(second := n);
      if it != |text| && (text[it] == '.' || text[it] == ',') {
        SuffixStep(text, it);
        f', it := ReadFractionPair(f', text, it + 1);
      }
    } else if c == 'i' {
      n, it := ReadDigits(text, it, 3, f.millis);
      f' := f.(millis := n);
    } else {
      n, it := ReadDigits(text, it, 1, f.millis);
      f' := f.(millis := 100 * n);
    }
  }

  /** The letters that read a plain number; any other takes nothing. */
  method ReadCalendar(c: char, f: Fields, text: string, start: nat) returns (f': Fields, it: nat)
    requires start <= |text| && c !in {'w', 'W', 'b', 'B', 'a', 'A', 'z', 'Z', 's', 'F', 'i', 'c'}
    ensures it <= |text| && ParsePiece(c, f, text[start..]) == Parsed(f', text[it..])
  {
    hide Number, Skip;
    f', it := f, start;
    var n;
    if c in {'d', 'e', 'f', 'm', 'n', 'o', 'y', 'Y', 'r', 'H', 'h', 'M', 'S'} {
      it := SkipWhile(IsJunk, text, it);
      match c
      case 'm' => n, it := ReadDigits(text, it, 2, f.month); f' := f.(month := n);
      case 'n' => n, it := ReadDigits(text, it, 2, f.month); f' := f.(month := n);
      case 'o' => n, it := ReadDigits(text, it, 2, f.month); f' := f.(month := n);
      case 'y' => n, it := ReadDigits(text, it, 2, f.year); f' := f.(year := WithCentury(n));
      case 'Y' => n, it := ReadDigits(text, it, 4, f.year); f' := f.(year := n);
      case 'r' =>
        n, it := ReadDigits(text, it, |text| - it, f.year);
        f' := f.(year := if n < 1000 then WithCentury(n) else n);
      case 'H' => n, it := ReadDigits(text, it, 2, f.hour); f' := f.(hour := n);
      case 'h' => n, it := ReadDigits(text, it, 2, f.hour); f' := f.(hour := n);
      case 'M' => n, it := ReadDigits(text, it, 2, f.minute); f' := f.(minute := n);
      case 'S' => n, it := ReadDigits(text, it, 2, f.second); f' := f.(second := n);
      case _ => n, it := ReadDigits(text, it, 2, f.day); f' := f.(day := n);
    }
  }

  /** `DateTimeParser::parse`. */
  method Parse(fmt: string, str: string) returns (r: DateRead)
    ensures r == ParseText(fmt, str)
  {
    hide ParsePiece, IsValid;
    var f := NO_FIELDS;
    var it: nat := 0;
    var itf: nat := 0;
    assert fmt[0..] == fmt && str[0..] == str;
    while itf < |fmt| && it != |str|
      invariant itf <= |fmt| && it <= |str|
      invariant ParseFields(fmt[itf..], f, str[it..]) == ParseFields(fmt, NO_FIELDS, str)
    {
      SuffixStep(fmt, itf);
      if fmt[itf] == '%' {
        itf := itf + 1;
        if itf != |fmt| {
          var ok;
          assert fmt[itf - 1..][2..] == fmt[itf + 1..];
          ok, f, it := ReadPiece(fmt[itf], f, str, it);
          if !ok { return Invalid; }
          itf := itf + 1;
        }
      } else {
        itf := itf + 1;
      }
    }
    assert ParseFields(fmt, NO_FIELDS, str) == Parsed(f, str[it..]);
    if f.month == 0 { f := f.(month := 1); }
    if f.day == 0 { f := f.(day := 1); }
    var d := Date(f.year, f.month, f.day);
    var t := TimeOfDay(f.hour, f.minute, f.second, f.millis, f.micros);
    r := if IsValid(d, t) then DateRead(d, t, f.tzd) else Invalid;
  }

  /** `std::string::find`; the length of the text stands for no position. */
  method Find(text: string, c: char) returns (at: nat)
    ensures at <= |text| && c !in text[..at] && (at < |text| ==> text[at] == c)
  {
    at := 0;
    while at < |text| && text[at] != c
      invariant at <= |text| && c !in text[..at]
    {
      at := at + 1;
    }
  }

  /** `tryParse`, which finds out the format. */
  method TryParse(str: string) returns (r: DateRead)
    ensures r == ParseAny(str)
  {
    hide ParseText;
    if |str| < 4 { return Invalid; }
    var comma := Find(str, ',');
    if str[3] == ',' {
      r := Parse(RFC_FORMAT, str);
    } else if str[3] == ' ' {
      r := Parse(ASCTIME_FORMAT, str);
    } else if comma < |str| && comma < 10 {
      assert str[..if |str| < 10 then |str| else 10][comma] == ',';
      r := Parse(FULL_RFC_FORMAT, str);
    } else if IsDigit(str[0]) {
      var blank := Find(str, ' ');
      var point := Find(str, '.');
      if blank < |str| || |str| == 10 {
        r := Parse(SORTABLE_FORMAT, str);
      } else if point < |str| || comma < |str| {
        r := Parse(ISO8601_FRAC_FORMAT, str);
      } else {
        r := Parse(ISO8601_FORMAT, str);
      }
    } else {
      r := Invalid;
    }
  }
}
