/** What the functions of UrlCodec mean for texts of any form: the escapes of RFC 3986, names compared without
    their case, and the parts and parameters of a URI whether or not a form writer made it.
 */
module UrlTexts {
  import opened Numerals
  import opened UrlCodec

  // Escapes

  const CAPITALS := "ABCDEFGHIJKLMNOPQRSTUVWXYZ"
  const SMALL_LETTERS := "abcdefghijklmnopqrstuvwxyz"
  const DIGITS_AND_MARKS := "0123456789-_.~"

  /** The unreserved characters of RFC 3986, section 2.3, one by one. */
  function Unreserved(i: nat): char
    requires i < 66
  {
    if i < 26 then CAPITALS[i] else if i < 52 then SMALL_LETTERS[i - 26] else DIGITS_AND_MARKS[i - 52]
  }

  lemma UnreservedIs(i: nat)
    requires i < 66
    ensures Unreserved(i) == if i < 26 then 'A' + i as char else if i < 52 then 'a' + (i - 26) as char
                             else if i < 62 then '0' + (i - 52) as char
                             else if i == 62 then '-' else if i == 63 then '_' else if i == 64 then '.' else '~'
  {
  }

  function PlaceOf(c: char): nat {
    if 'A' <= c <= 'Z' then c as nat - 'A' as nat else if 'a' <= c <= 'z' then c as nat - 'a' as nat + 26
    else if '0' <= c <= '9' then c as nat - '0' as nat + 52
    else if c == '-' then 62 else if c == '_' then 63 else if c == '.' then 64 else 65
  }

  /** A character stands for itself exactly if it is unreserved; any other takes three characters. */
  lemma EscapedIff(c: char)
    requires c < 128 as char
    ensures EncodeChar(c) == [c] <==> exists i: nat :: i < 66 && Unreserved(i) == c
    ensures EncodeChar(c) != [c] ==> |EncodeChar(c)| == 3 && EncodeChar(c)[0] == '%'
  {
    hide Unreserved;
    forall i: nat | i < 66 && Unreserved(i) == c ensures IsUnreserved(c) {
      UnreservedIs(i);
    }
    if IsUnreserved(c) {
      UnreservedIs(PlaceOf(c));
    } else {
      assert |EncodeChar(c)| == 3;
    }
  }

  /** Text without percent signs is left as it is, in front of anything. */
  lemma {:induction false} PlainInFront(plain: string, rest: string)
    requires '%' !in plain
    ensures Decode(plain + rest) == Behind(plain, Decode(rest))
  {
    if plain == "" {
      assert plain + rest == rest;
      if Decode(rest).Decoded? { assert "" + Decode(rest).text == Decode(rest).text; }
    } else {
      assert (plain + rest)[1..] == plain[1..] + rest;
      PlainInFront(plain[1..], rest);
      if Decode(rest).Decoded? { assert [plain[0]] + (plain[1..] + Decode(rest).text) == plain + Decode(rest).text; }
    }
  }

  /** Escapes that are cut short: one character behind the percent sign counts with a null, none reads out of
      bounds. */
  lemma CutEscapes(plain: string, high: char)
    requires '%' !in plain
    ensures Decode(plain) == Decoded(plain) && Decode(plain + "%") == OutOfBounds
    ensures Decode(plain + ['%', high]) == Decoded(plain + [Unescape(high, '\0')])
    ensures IsHexDigit(high) && high <= 'F' ==> Unescape(high, '\0') == ((16 * HexValue(high) + 255) % 256) as char
  {
    PlainInFront(plain, "");
    PlainInFront(plain, "%");
    PlainInFront(plain, ['%', high]);
    assert plain + "" == plain;
    if IsHexDigit(high) && high <= 'F' {
      assert (16 * HexValue(high) - 1) % 256 == (16 * HexValue(high) + 255) % 256;
    }
  }

  // Names

  /** Two characters that are the same, or the two cases of a letter. */
  predicate SameLetter(a: char, b: char) {
    a == b || ('A' <= a <= 'Z' && b as int == a as int + 32) || ('A' <= b <= 'Z' && a as int == b as int + 32)
  }

  lemma {:induction false} KeyAt(name: string, i: nat)
    requires i < |name|
    ensures Key(name)[i] == ToLower(name[i])
  {
    if i > 0 { KeyAt(name[1..], i - 1); }
  }

  lemma SameLetterIff(a: char, b: char)
    ensures ToLower(a) == ToLower(b) <==> SameLetter(a, b)
  {
    if 'A' <= a <= 'Z' { assert ToLower(a) as int == a as int + 32; }
    if 'A' <= b <= 'Z' { assert ToLower(b) as int == b as int + 32; }
  }

  /** Two names are the same exactly if they differ in nothing but the case of their letters. */
  lemma SameNameIff(a: string, b: string)
    ensures SameName(a, b) <==> |a| == |b| && forall i :: 0 <= i < |a| ==> SameLetter(a[i], b[i])
  {
    hide ToLower, SameLetter;
    forall i | 0 <= i < |a| && i < |b| ensures Key(a)[i] == Key(b)[i] <==> SameLetter(a[i], b[i]) {
      KeyAt(a, i);
      KeyAt(b, i);
      SameLetterIff(a[i], b[i]);
    }
    if |a| == |b| && forall i :: 0 <= i < |a| ==> SameLetter(a[i], b[i]) {
      assert forall i :: 0 <= i < |a| ==> Key(a)[i] == Key(b)[i];
    }
    if SameName(a, b) {
      assert |a| == |Key(a)| == |Key(b)| == |b|;
    }
  }

  /** The order is that of a dictionary: the first difference decides, and the end of a text comes first. */
  lemma {:induction false} PrecedesIff(a: string, b: string)
    ensures Precedes(a, b) <==> exists k: nat :: k < |b| && k <= |a| && a[..k] == b[..k] && (k == |a| || a[k] < b[k])
  {
    if b != "" {
      if a == "" {
        assert a[..0] == b[..0];
      } else {
        PrecedesIff(a[1..], b[1..]);
        if a[0] < b[0] { assert a[..0] == b[..0]; }
        if a[0] == b[0] && Precedes(a[1..], b[1..]) {
          var k: nat :| k < |b[1..]| && k <= |a[1..]| && a[1..][..k] == b[1..][..k] && (k == |a[1..]| || a[1..][k] < b[1..][k]);
          assert a[..k + 1] == [a[0]] + a[1..][..k] && b[..k + 1] == [b[0]] + b[1..][..k];
        }
        forall k: nat | k < |b| && k <= |a| && a[..k] == b[..k] && (k == |a| || a[k] < b[k]) ensures Precedes(a, b) {
          if k > 0 {
            assert a[0] == a[..k][0] == b[..k][0] == b[0];
            assert a[1..][..k - 1] == a[..k][1..] && b[1..][..k - 1] == b[..k][1..];
          }
        }
      }
    }
  }

  // Parameters

  /** A name reaches up to the first equals sign, whatever else is in it, and a value up to the next ampersand. The
      parameter is left out if one of the two is empty. */
  lemma FieldTaken(name: string, value: string, tail: string)
    requires '=' !in name && '&' !in value
    ensures var kept := if name != "" && value != "" then [Pair(name, value)] else [];
            && QueryFields(name + "=" + value + "&" + tail) == kept + QueryFields(tail)
            && QueryFields(name + "=" + value) == kept
  {
    var query := name + "=" + value + "&" + tail;
    assert query == name + "=" + (value + "&" + tail);
    UntilStops(name, '=', value + "&" + tail);
    UntilStops(name, '=', value);
    UntilStops(value, '&', tail);
    hide Until, Nonempty;
    assert Drop(query, |name| + 1) == value + "&" + tail && Drop(name + "=" + value, |name| + 1) == value;
    assert Drop(value + "&" + tail, |value| + 1) == tail;
  }

  /** Without an equals sign there is no parameter. */
  lemma NoField(query: string)
    requires '=' !in query
    ensures QueryFields(query) == []
  {
    if query != "" {
      UntilAt(query, '=', |query|);
      assert query[..|query|] == query && Drop(query, |query| + 1) == "" && Until("", '&') == "";
    }
  }

  /** The query begins behind the first question mark. */
  lemma QueryBehind(path: string, query: string)
    requires '?' !in path
    ensures QueryOf(path + "?" + query) == query && QueryOf(path) == ""
  {
    UntilStops(path, '?', query);
    UntilAt(path, '?', |path|);
    assert path[..|path|] == path;
  }

  // Parts of the path

  predicate AreParts(values: seq<string>) {
    forall i :: 0 <= i < |values| ==> '/' !in values[i] && '?' !in values[i]
  }

  function PathText(values: seq<string>): string {
    if values == [] then "" else "/" + values[0] + PathText(values[1..])
  }

  function NonemptyParts(values: seq<string>): seq<string> {
    if values == [] then [] else (if values[0] == "" then [] else [values[0]]) + NonemptyParts(values[1..])
  }

  lemma PathTextStarts(values: seq<string>, tail: string)
    requires tail == "" || tail[0] == '?'
    ensures var text := PathText(values) + tail; text == "" || text[0] == '/' || text[0] == '?'
  {
  }

  lemma OnePart(value: string, rest: string)
    requires '/' !in value && '?' !in value && (rest == "" || rest[0] == '/' || rest[0] == '?')
    ensures PathValues("/" + value + rest) == (if value == "" then [] else [value]) + PathValues(rest)
  {
    var text := "/" + value + rest;
    assert text[1..] == value + rest && text[1..][..|value|] == value;
    UntilEitherAt(text[1..], '/', '?', |value|);
    assert text[1 + |value|..] == rest;
  }

  /** The parts that are not empty are found in order; the query ends the path. */
  lemma {:induction false} PathParts(values: seq<string>, tail: string)
    requires AreParts(values) && (tail == "" || tail[0] == '?')
    ensures PathValues(PathText(values) + tail) == NonemptyParts(values)
  {
    if values == [] {
      assert PathText(values) + tail == tail;
    } else {
      hide PathValues;
      var rest := PathText(values[1..]) + tail;
      PathParts(values[1..], tail);
      PathTextStarts(values[1..], tail);
      OnePart(values[0], rest);
      assert PathText(values) + tail == "/" + values[0] + rest;
    }
  }

  /** The first character counts as a slash whatever it is. */
  lemma FirstCharacter(c: char, rest: string)
    requires c != '?'
    ensures PathValues([c] + rest) == PathValues("/" + rest)
  {
    assert ([c] + rest)[1..] == rest == ("/" + rest)[1..];
    var value := UntilEither(rest, '/', '?');
    assert ([c] + rest)[1 + |value|..] == rest[|value|..] == ("/" + rest)[1 + |value|..];
  }

  lemma DecimalReads(n: nat)
    ensures Number(Decimal(n), |Decimal(n)|, 0).0 == n
  {
    assert Padded(n, 0) == Decimal(n) && Decimal(n) + "" == Decimal(n);
    ReadsPadded(n, 0, |Decimal(n)|, "");
  }

  lemma {:induction false} KeyOfDigits(text: string)
    requires forall i :: 0 <= i < |text| ==> IsDigit(text[i])
    ensures Key(text) == text
  {
    if text != "" { KeyOfDigits(text[1..]); }
  }

  lemma NumbersDiffer(m: nat, n: nat)
    ensures SameName(Decimal(m), Decimal(n)) <==> m == n
  {
    hide Key, Decimal;
    DecimalIsDigits(m);
    DecimalIsDigits(n);
    KeyOfDigits(Decimal(m));
    KeyOfDigits(Decimal(n));
    DecimalReads(m);
    DecimalReads(n);
  }

  lemma {:induction false} PathNumberedFrom(entries: seq<Pair>, values: seq<string>)
    requires IsSorted(entries) && forall n: nat :: n >= |entries| ==> Fresh(entries, Decimal(n))
    ensures |PathCalls(entries, values)| == |values|
    ensures forall i :: 0 <= i < |values| ==> PathCalls(entries, values)[i] == Pair(Decimal(|entries| + i), values[i])
    decreases |values|
  {
    if values != [] {
      hide SetIn, IsSorted, Fresh, Decimal, SameName;
      var call := Pair(Decimal(|entries|), values[0]);
      var after := SetIn(entries, call);
      SetInKeeps(entries, call);
      forall n: nat | n >= |after| ensures Fresh(after, Decimal(n)) {
        SetInNames(entries, call, Decimal(n));
        NumbersDiffer(|entries|, n);
      }
      PathNumberedFrom(after, values[1..]);
      assert PathCalls(entries, values) == [call] + PathCalls(after, values[1..]);
    }
  }

  /** In an empty collection the parts are numbered from 0 in their order. */
  lemma PathNumbered(values: seq<string>)
    ensures |PathCalls([], values)| == |values|
    ensures forall i :: 0 <= i < |values| ==> PathCalls([], values)[i] == Pair(Decimal(i), values[i])
  {
    PathNumberedFrom([], values);
  }
}
