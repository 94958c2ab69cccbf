/** URL escaping, form text and query parameters: `URL::encode` and `URL::decode` of src/http/src/url.cpp,
    `FormWriter::writeUrl` of src/http/src/form.cpp and `splitURIParameters` of src/http/src/util.cpp.
 */
module UrlCodec {
  import opened Numerals

  predicate IsAscii(text: string) {
    forall i :: 0 <= i < |text| ==> text[i] < 128 as char
  }

  // Escapes

  predicate IsUnreserved(c: char) {
    'A' <= c <= 'Z' || 'a' <= c <= 'z' || '0' <= c <= '9' || c == '-' || c == '_' || c == '.' || c == '~'
  }

  function HexDigit(d: nat): char
    requires d < 16
  {
    if d < 10 then '0' + d as char else 'A' + (d - 10) as char
  }

  function EncodeChar(c: char): string
    requires c < 128 as char
  {
    if IsUnreserved(c) then [c] else ['%', HexDigit(c as nat / 16), HexDigit(c as nat % 16)]
  }

  function Encode(text: string): string
    requires IsAscii(text)
  {
    if text == "" then "" else EncodeChar(text[0]) + Encode(text[1..])
  }

  /** `digits.find`, as the program goes on to use it: a character that is not there counts as -1, because
      what comes of it is cut to eight bits. */
  function FindDigit(c: char): int {
    if '0' <= c <= '9' then c as int - '0' as int
    else if 'A' <= c <= 'F' then c as int - 'A' as int + 10
    else -1
  }

  function Unescape(high: char, low: char): char {
    ((FindDigit(high) * 16 + FindDigit(low)) % 256) as char
  }

  datatype Decoded = Decoded(text: string) | OutOfBounds

  /** A percent sign too near the end reads past the string; the character just behind it reads as a null. */
  function Decode(text: string): Decoded {
    if text == "" then Decoded("")
    else if text[0] != '%' then Then(text[0], Decode(text[1..]))
    else if |text| >= 3 then Then(Unescape(text[1], text[2]), Decode(text[3..]))
    else if |text| == 2 then Decoded([Unescape(text[1], '\0')])
    else OutOfBounds
  }

  function Then(c: char, rest: Decoded): Decoded {
    if rest.Decoded? then Decoded([c] + rest.text) else OutOfBounds
  }

  lemma UnescapeEncoded(c: char)
    requires c < 128 as char
    ensures Unescape(HexDigit(c as nat / 16), HexDigit(c as nat % 16)) == c
  {
  }

  /** Decoding undoes encoding on every seven-bit text. */
  lemma {:induction false} DecodeEncode(text: string)
    requires IsAscii(text)
    ensures Decode(Encode(text)) == Decoded(text)
  {
    if text != "" {
      var c, encoded := text[0], Encode(text);
      DecodeEncode(text[1..]);
      if IsUnreserved(c) {
        assert encoded[0] == c && encoded[1..] == Encode(text[1..]);
      } else {
        UnescapeEncoded(c);
        assert encoded[0] == '%' && encoded[1] == HexDigit(c as nat / 16) && encoded[2] == HexDigit(c as nat % 16);
        assert encoded[3..] == Encode(text[1..]);
      }
    }
  }

  predicate IsHexDigit(c: char) {
    '0' <= c <= '9' || 'A' <= c <= 'F' || 'a' <= c <= 'f'
  }

  function HexValue(c: char): (v: nat)
    requires IsHexDigit(c)
    ensures v < 16
  {
    if c <= '9' then c as nat - '0' as nat
    else if c <= 'F' then c as nat - 'A' as nat + 10
    else c as nat - 'a' as nat + 10
  }

  /** RFC 3986, section 2.1, makes the two cases of a hexadecimal digit equivalent. The decoder knows only the
      upper one, and is right otherwise only by the way its -1 overflows. */
  lemma UnescapeIff(high: char, low: char)
    requires IsHexDigit(high) && IsHexDigit(low)
    ensures Unescape(high, low) == (16 * HexValue(high) + HexValue(low)) as char
       <==> (low <= 'F' && (high <= 'F' || high == 'f')) || (high == 'e' && low == 'f')
  {
    var right, found := 16 * HexValue(high) + HexValue(low), FindDigit(high) * 16 + FindDigit(low);
    assert Unescape(high, low) == right as char <==> found % 256 == right;
  }

  /** The loop of `encode`. */
  method EncodeText(text: string) returns (escaped: string)
    requires IsAscii(text)
    ensures escaped == Encode(text)
  {
    hide EncodeChar;
    escaped := "";
    for i := 0 to |text|
      invariant escaped + Encode(text[i..]) == Encode(text)
    {
      assert text[i..][0] == text[i] && text[i..][1..] == text[i + 1..];
      escaped := escaped + EncodeChar(text[i]);
    }
  }

  /** The loop of `decode`; `ok` is false where the program would read out of bounds. */
  method DecodeText(text: string) returns (ok: bool, clean: string)
    ensures ok == Decode(text).Decoded? && (ok ==> clean == Decode(text).text)
  {
    hide Unescape;
    clean := "";
    var i := 0;
    while i < |text|
      invariant i <= |text| + 1
      invariant Decode(text) == Behind(clean, if i <= |text| then Decode(text[i..]) else Decoded(""))
    {
      ghost var before := clean;
      assert text[i..][0] == text[i] && text[i..][1..] == text[i + 1..];
      if text[i] == '%' {
        if i + 2 > |text| { return false, clean; }
        var low := if i + 2 == |text| then '\0' else text[i + 2];
        clean := clean + [Unescape(text[i + 1], low)];
        assert i + 3 <= |text| ==> text[i..][3..] == text[i + 3..];
        i := i + 2;
      } else {
        clean := clean + [text[i]];
      }
      i := i + 1;
      BehindOne(before, clean[|clean| - 1], if i <= |text| then Decode(text[i..]) else Decoded(""));
    }
    ok := true;
  }

  function Behind(clean: string, rest: Decoded): Decoded {
    if rest.Decoded? then Decoded(clean + rest.text) else OutOfBounds
  }

  lemma BehindOne(clean: string, c: char, rest: Decoded)
    ensures Behind(clean, Then(c, rest)) == Behind(clean + [c], rest)
  {
  }

  // Form text

  datatype Pair = Pair(name: string, value: string)

  predicate AllAscii(fields: seq<Pair>) {
    forall i :: 0 <= i < |fields| ==> IsAscii(fields[i].name) && IsAscii(fields[i].value)
  }

  function Encoded(field: Pair): Pair
    requires IsAscii(field.name) && IsAscii(field.value)
  {
    Pair(Encode(field.name), Encode(field.value))
  }

  function FieldText(field: Pair): string
    requires IsAscii(field.name) && IsAscii(field.value)
  {
    Encode(field.name) + "=" + Encode(field.value)
  }

  function FormText(fields: seq<Pair>): string
    requires AllAscii(fields)
  {
    if fields == [] then ""
    else if |fields| == 1 then FieldText(fields[0])
    else FieldText(fields[0]) + "&" + FormText(fields[1..])
  }

  lemma {:induction false} FormTextMore(fields: seq<Pair>, field: Pair)
    requires AllAscii(fields) && fields != [] && IsAscii(field.name) && IsAscii(field.value)
    ensures FormText(fields + [field]) == FormText(fields) + "&" + FieldText(field)
  {
    assert (fields + [field])[1..] == fields[1..] + [field];
    if |fields| == 1 {
      assert FormText([field]) == FieldText(field);
    } else {
      FormTextMore(fields[1..], field);
      Regroup(FieldText(fields[0]), FormText(fields[1..]), FieldText(field));
    }
  }

  lemma Regroup(a: string, b: string, c: string)
    ensures a + "&" + (b + "&" + c) == a + "&" + b + "&" + c
  {
  }

  /** `writeUrl`, which puts the separators before all fields but the first. */
  method WriteUrl(fields: seq<Pair>) returns (text: string)
    requires AllAscii(fields)
    ensures text == FormText(fields)
  {
    hide Encode;
    text := "";
    for i := 0 to |fields|
      invariant text == FormText(fields[..i])
    {
      assert fields[..i + 1] == fields[..i] + [fields[i]];
      if i > 0 {
        FormTextMore(fields[..i], fields[i]);
        text := text + "&";
      }
      var name := EncodeText(fields[i].name);
      var value := EncodeText(fields[i].value);
      text := text + name + "=" + value;
    }
    assert fields[..|fields|] == fields;
  }

  // Parameters

  /** What stands before the first of a character, or the whole text. */
  function Until(text: string, stop: char): (head: string)
    ensures |head| <= |text|
  {
    if text == "" || text[0] == stop then "" else [text[0]] + Until(text[1..], stop)
  }

  function Drop(text: string, n: nat): (rest: string)
    ensures n > 0 && text != "" ==> |rest| < |text|
    ensures |rest| <= |text|
  {
    if n <= |text| then text[n..] else ""
  }

  function Nonempty(field: Pair): seq<Pair> {
    if field.name != "" && field.value != "" then [field] else []
  }

  /** The parameters of a query: a name up to the next equals sign, a value up to the next ampersand. */
  function QueryFields(query: string): seq<Pair>
    decreases |query|
  {
    if query == "" then []
    else
      var name := Until(query, '=');
      var behind := Drop(query, |name| + 1);
      var value := Until(behind, '&');
      Nonempty(Pair(name, value)) + QueryFields(Drop(behind, |value| + 1))
  }

  lemma {:induction false} UntilStops(head: string, stop: char, tail: string)
    requires stop !in head
    ensures Until(head + [stop] + tail, stop) == head && Until(head, stop) == head
  {
    if head != "" {
      UntilStops(head[1..], stop, tail);
      assert (head + [stop] + tail)[1..] == head[1..] + [stop] + tail;
    }
  }

  lemma {:induction false} EncodedIsPlain(text: string)
    requires IsAscii(text)
    ensures '=' !in Encode(text) && '&' !in Encode(text) && '?' !in Encode(text) && '/' !in Encode(text)
    ensures Encode(text) == "" <==> text == ""
  {
    if text != "" { EncodedIsPlain(text[1..]); }
  }

  function NonemptyFields(fields: seq<Pair>): seq<Pair>
    requires AllAscii(fields)
  {
    if fields == [] then [] else Nonempty(Encoded(fields[0])) + NonemptyFields(fields[1..])
  }

  lemma ReadField(field: Pair, tail: string)
    requires IsAscii(field.name) && IsAscii(field.value)
    ensures QueryFields(FieldText(field) + "&" + tail) == Nonempty(Encoded(field)) + QueryFields(tail)
    ensures QueryFields(FieldText(field)) == Nonempty(Encoded(field))
  {
    hide Encode;
    EncodedIsPlain(field.name);
    EncodedIsPlain(field.value);
    var name, value := Encode(field.name), Encode(field.value);
    var query := FieldText(field) + "&" + tail;
    assert query == name + "=" + (value + "&" + tail) && FieldText(field) == name + "=" + value;
    UntilStops(name, '=', value + "&" + tail);
    UntilStops(name, '=', value);
    UntilStops(value, '&', tail);
    assert Drop(query, |name| + 1) == value + "&" + tail && Drop(FieldText(field), |name| + 1) == value;
    assert Drop(value + "&" + tail, |value| + 1) == tail;
  }

  /** Reading the query of form text gives its fields, encoded, in order, without those that have no name or no
      value. */
  lemma {:induction false} ReadForm(fields: seq<Pair>)
    requires AllAscii(fields)
    ensures QueryFields(FormText(fields)) == NonemptyFields(fields)
  {
    if fields != [] {
      hide FieldText, QueryFields, Nonempty, Encoded;
      ReadField(fields[0], FormText(fields[1..]));
      if |fields| == 1 {
        assert NonemptyFields(fields[1..]) == [];
      } else {
        ReadForm(fields[1..]);
      }
    } else {
      assert QueryFields("") == [];
    }
  }

  predicate IsFull(field: Pair) {
    field.name != "" && field.value != ""
  }

  predicate AllFull(fields: seq<Pair>) {
    forall i :: 0 <= i < |fields| ==> IsFull(fields[i])
  }

  /** Every field comes through, and decodes to itself, exactly if each has a name and a value. */
  lemma FormRoundTrip(fields: seq<Pair>)
    requires AllAscii(fields)
    ensures var read := QueryFields(FormText(fields));
            && (|read| == |fields| <==> AllFull(fields))
            && (AllFull(fields) ==> forall i :: 0 <= i < |fields| ==>
                 Decode(read[i].name) == Decoded(fields[i].name) && Decode(read[i].value) == Decoded(fields[i].value))
  {
    hide Encode, Decode, QueryFields, FormText, NonemptyFields;
    ReadForm(fields);
    KeptAll(fields);
    forall i | 0 <= i < |fields| && AllFull(fields)
      ensures var read := NonemptyFields(fields)[i];
              Decode(read.name) == Decoded(fields[i].name) && Decode(read.value) == Decoded(fields[i].value)
    {
      KeptAt(fields, i);
      DecodeEncode(fields[i].name);
      DecodeEncode(fields[i].value);
    }
  }

  lemma {:induction false} KeptAll(fields: seq<Pair>)
    requires AllAscii(fields)
    ensures |NonemptyFields(fields)| <= |fields| && (|NonemptyFields(fields)| == |fields| <==> AllFull(fields))
  {
    if fields != [] {
      hide Encode;
      KeptAll(fields[1..]);
      EncodedIsPlain(fields[0].name);
      EncodedIsPlain(fields[0].value);
      assert AllFull(fields) <==> IsFull(fields[0]) && AllFull(fields[1..]) by {
        assert forall i :: 0 < i < |fields| ==> fields[i] == fields[1..][i - 1];
      }
    }
  }

  lemma {:induction false} KeptAt(fields: seq<Pair>, i: nat)
    requires AllAscii(fields) && AllFull(fields) && i < |fields|
    ensures |NonemptyFields(fields)| == |fields| && NonemptyFields(fields)[i] == Encoded(fields[i])
  {
    hide Encode;
    KeptAll(fields);
    assert IsFull(fields[0]);
    EncodedIsPlain(fields[0].name);
    EncodedIsPlain(fields[0].value);
    if i > 0 { KeptAt(fields[1..], i - 1); }
  }

  // The whole URI

  function UntilEither(text: string, a: char, b: char): (head: string)
    ensures |head| <= |text|
  {
    if text == "" || text[0] == a || text[0] == b then "" else [text[0]] + UntilEither(text[1..], a, b)
  }

  /** The parts of the path: whatever lies between two slashes, the character at the start being taken for one. */
  function PathValues(text: string): seq<string>
    decreases |text|
  {
    if text == "" || text[0] == '?' then []
    else
      var value := UntilEither(text[1..], '/', '?');
      (if value == "" then [] else [value]) + PathValues(text[1 + |value|..])
  }

  function QueryOf(uri: string): string {
    Drop(uri, |Until(uri, '?')| + 1)
  }

  // The collection: entries in the order of their names, case ignored

  function ToLower(c: char): char {
    if 'A' <= c <= 'Z' then (c as int + 32) as char else c
  }

  /** What decides the place of a name. */
  function Key(name: string): (key: string)
    ensures |key| == |name|
  {
    if name == "" then "" else [ToLower(name[0])] + Key(name[1..])
  }

  /** `icompare` below zero, on keys. */
  predicate Precedes(a: string, b: string) {
    if b == "" then false
    else if a == "" then true
    else a[0] < b[0] || (a[0] == b[0] && Precedes(a[1..], b[1..]))
  }

  lemma {:induction false} PrecedesIsTotal(a: string, b: string)
    ensures Precedes(a, b) || a == b || Precedes(b, a)
    ensures !(Precedes(a, b) && Precedes(b, a)) && (a == b ==> !Precedes(a, b))
  {
    if a != "" && b != "" {
      PrecedesIsTotal(a[1..], b[1..]);
      assert a == [a[0]] + a[1..] && b == [b[0]] + b[1..];
    }
  }

  lemma {:induction false} PrecedesIsTransitive(a: string, b: string, c: string)
    requires Precedes(a, b) && Precedes(b, c)
    ensures Precedes(a, c)
  {
    if a != "" {
      if a[0] == b[0] == c[0] { PrecedesIsTransitive(a[1..], b[1..], c[1..]); }
    }
  }

  predicate SameName(a: string, b: string) {
    Key(a) == Key(b)
  }

  /** Entries stand in strict order, so no two have the same name. */
  ghost predicate IsSorted(entries: seq<Pair>) {
    forall i, j :: 0 <= i < j < |entries| ==> Precedes(Key(entries[i].name), Key(entries[j].name))
  }

  /** `set`: the first entry that does not come before the name is its own, or the new one goes in front. */
  function SetIn(entries: seq<Pair>, entry: Pair): seq<Pair> {
    if entries == [] then [entry]
    else if Precedes(Key(entries[0].name), Key(entry.name)) then [entries[0]] + SetIn(entries[1..], entry)
    else if SameName(entries[0].name, entry.name) then [entries[0].(value := entry.value)] + entries[1..]
    else [entry] + entries
  }

  ghost predicate Fresh(entries: seq<Pair>, name: string) {
    forall i :: 0 <= i < |entries| ==> !SameName(entries[i].name, name)
  }

  function InsertedAt(entries: seq<Pair>, i: nat, entry: Pair): seq<Pair>
    requires i <= |entries|
  {
    entries[..i] + [entry] + entries[i..]
  }

  /** The place of a name among sorted entries. */
  ghost predicate IsPlace(entries: seq<Pair>, i: nat, name: string) {
    && i <= |entries| && (forall k :: 0 <= k < i ==> Precedes(Key(entries[k].name), Key(name)))
    && (forall k :: i < k < |entries| ==> Precedes(Key(name), Key(entries[k].name)))
    && (i < |entries| && !SameName(entries[i].name, name) ==> Precedes(Key(name), Key(entries[i].name)))
  }

  lemma PlaceInFront(entries: seq<Pair>, name: string)
    requires entries != [] && IsSorted(entries) && !Precedes(Key(entries[0].name), Key(name))
    ensures IsPlace(entries, 0, name)
  {
    hide Precedes, Key;
    PrecedesIsTotal(Key(entries[0].name), Key(name));
    forall k | 0 < k < |entries| ensures Precedes(Key(name), Key(entries[k].name)) {
      if !SameName(entries[0].name, name) {
        PrecedesIsTransitive(Key(name), Key(entries[0].name), Key(entries[k].name));
      }
    }
  }

  lemma PlaceBehind(entries: seq<Pair>, i: nat, name: string)
    requires entries != [] && Precedes(Key(entries[0].name), Key(name)) && IsPlace(entries[1..], i, name)
    ensures IsPlace(entries, i + 1, name)
  {
    hide Precedes, Key;
    assert forall k :: 0 < k < |entries| ==> entries[k] == entries[1..][k - 1];
  }

  /** Where the new entry goes, or the one it replaces stands. */
  lemma {:induction false} SetInAt(entries: seq<Pair>, entry: Pair) returns (i: nat)
    requires IsSorted(entries)
    ensures IsPlace(entries, i, entry.name)
    ensures SetIn(entries, entry)
         == if i < |entries| && SameName(entries[i].name, entry.name) then entries[i := entries[i].(value := entry.value)]
            else InsertedAt(entries, i, entry)
  {
    hide Precedes, Key, IsPlace;
    i := 0;
    if entries == [] {
      NoPlaces(entry.name);
    } else if Precedes(Key(entries[0].name), Key(entry.name)) {
      TailSorted(entries);
      i := SetInAt(entries[1..], entry);
      PlaceBehind(entries, i, entry.name);
      PlaceFits(entries[1..], i, entry.name);
      SetBehind(entries, i, entry);
      i := i + 1;
    } else {
      PlaceInFront(entries, entry.name);
    }
  }

  lemma NoPlaces(name: string)
    ensures IsPlace([], 0, name)
  {
  }

  lemma PlaceFits(entries: seq<Pair>, i: nat, name: string)
    ensures IsPlace(entries, i, name) ==> i <= |entries|
  {
  }

  lemma TailSorted(entries: seq<Pair>)
    requires entries != [] && IsSorted(entries)
    ensures IsSorted(entries[1..])
  {
  }

  lemma SetBehind(entries: seq<Pair>, i: nat, entry: Pair)
    requires entries != [] && i < |entries|
    ensures [entries[0]] + InsertedAt(entries[1..], i, entry) == InsertedAt(entries, i + 1, entry)
    ensures i + 1 < |entries| ==>
      var replaced := entries[i + 1].(value := entry.value);
      entries[1..][i] == entries[i + 1] && [entries[0]] + entries[1..][i := replaced] == entries[i + 1 := replaced]
  {
  }

  lemma InsertSorted(entries: seq<Pair>, i: nat, entry: Pair)
    requires IsSorted(entries) && IsPlace(entries, i, entry.name)
    requires i < |entries| ==> !SameName(entries[i].name, entry.name)
    ensures IsSorted(InsertedAt(entries, i, entry))
  {
    hide Precedes, Key, SameName;
    var after := InsertedAt(entries, i, entry);
    forall j, k | 0 <= j < k < |after| ensures Precedes(Key(after[j].name), Key(after[k].name)) {
      var a, b := if j <= i then j else j - 1, if k <= i then k else k - 1;
      assert j != i ==> after[j] == entries[a];
      assert k != i ==> after[k] == entries[b];
    }
  }

  lemma InsertKeeps(entries: seq<Pair>, i: nat, entry: Pair)
    requires IsSorted(entries) && IsPlace(entries, i, entry.name)
    requires i < |entries| ==> !SameName(entries[i].name, entry.name)
    ensures IsSorted(InsertedAt(entries, i, entry)) && Fresh(entries, entry.name)
    ensures multiset(InsertedAt(entries, i, entry)) == multiset(entries) + multiset{entry}
  {
    InsertSorted(entries, i, entry);
    hide Precedes, Key, IsSorted;
    assert entries == entries[..i] + entries[i..];
    forall k | 0 <= k < |entries| ensures !SameName(entries[k].name, entry.name) {
      PrecedesIsTotal(Key(entries[k].name), Key(entry.name));
    }
  }

  lemma InsertedNames(entries: seq<Pair>, i: nat, entry: Pair, name: string)
    requires i <= |entries|
    ensures Fresh(InsertedAt(entries, i, entry), name) <==> Fresh(entries, name) && !SameName(entry.name, name)
  {
    hide SameName;
    var after := InsertedAt(entries, i, entry);
    assert after[i] == entry;
    assert forall k :: 0 <= k < |entries| ==> entries[k] == after[if k < i then k else k + 1];
  }

  lemma ReplaceKeeps(entries: seq<Pair>, i: nat, entry: Pair, name: string)
    requires i < |entries| && SameName(entries[i].name, entry.name)
    ensures var after := entries[i := entries[i].(value := entry.value)];
            && (IsSorted(entries) ==> IsSorted(after)) && !Fresh(entries, entry.name)
            && (Fresh(after, name) <==> Fresh(entries, name) && !SameName(entry.name, name))
  {
    hide Precedes, Key;
    var after := entries[i := entries[i].(value := entry.value)];
    assert forall k :: 0 <= k < |entries| ==> after[k].name == entries[k].name;
    assert SameName(entry.name, name) ==> SameName(entries[i].name, name);
  }

  /** Setting keeps the order, and adds an entry exactly if the name is new. */
  lemma SetInKeeps(entries: seq<Pair>, entry: Pair)
    requires IsSorted(entries)
    ensures IsSorted(SetIn(entries, entry))
    ensures |SetIn(entries, entry)| == |entries| + if Fresh(entries, entry.name) then 1 else 0
    ensures Fresh(entries, entry.name) ==> multiset(SetIn(entries, entry)) == multiset(entries) + multiset{entry}
  {
    var i := SetInAt(entries, entry);
    PlaceFits(entries, i, entry.name);
    hide SetIn, IsSorted, IsPlace, SameName, Fresh;
    if i < |entries| && SameName(entries[i].name, entry.name) {
      ReplaceKeeps(entries, i, entry, "");
    } else {
      InsertKeeps(entries, i, entry);
    }
  }

  /** The names afterwards are those before and the new one. */
  lemma SetInNames(entries: seq<Pair>, entry: Pair, name: string)
    requires IsSorted(entries)
    ensures Fresh(SetIn(entries, entry), name) <==> Fresh(entries, name) && !SameName(entry.name, name)
  {
    var i := SetInAt(entries, entry);
    PlaceFits(entries, i, entry.name);
    hide SetIn, IsSorted, IsPlace, SameName, Fresh, InsertedAt;
    if i < |entries| && SameName(entries[i].name, entry.name) {
      ReplaceKeeps(entries, i, entry, name);
    } else {
      InsertedNames(entries, i, entry, name);
    }
  }

  function SetAllIn(entries: seq<Pair>, calls: seq<Pair>): seq<Pair>
    decreases |calls|
  {
    if calls == [] then entries else SetAllIn(SetIn(entries, calls[0]), calls[1..])
  }

  /** Parts of the path are named after the size of the collection at the time. */
  function PathCalls(entries: seq<Pair>, values: seq<string>): seq<Pair>
    decreases |values|
  {
    if values == [] then []
    else
      var call := Pair(Decimal(|entries|), values[0]);
      [call] + PathCalls(SetIn(entries, call), values[1..])
  }

  /** The calls of `set`, for a collection that already holds these entries. */
  function SplitCalls(entries: seq<Pair>, uri: string): seq<Pair> {
    PathCalls(entries, PathValues(uri)) + QueryFields(QueryOf(uri))
  }

  /** A form written behind a question mark is read back as one call for each field that has a name and a value. */
  lemma SplitForm(entries: seq<Pair>, fields: seq<Pair>)
    requires AllAscii(fields)
    ensures SplitCalls(entries, "/?" + FormText(fields)) == NonemptyFields(fields)
  {
    hide FormText, QueryFields, NonemptyFields;
    var uri := "/?" + FormText(fields);
    ReadForm(fields);
    assert uri[1..][0] == '?' && uri[0] == '/';
    assert UntilEither(uri[1..], '/', '?') == "" && PathValues(uri[1..]) == [];
    assert Until(uri, '?') == [uri[0]] + Until(uri[1..], '?') == ['/'];
    assert QueryOf(uri) == FormText(fields);
  }

  class NVCollection {
    var entries: seq<Pair>
    ghost var calls: seq<Pair>

    constructor ()
      ensures entries == [] && calls == []
    {
      entries, calls := [], [];
    }

    /** Looks for the first entry that does not come before the name. */
    method Set(name: string, value: string)
      modifies this
      ensures entries == SetIn(old(entries), Pair(name, value)) && calls == old(calls) + [Pair(name, value)]
    {
      hide Precedes, Key;
      calls := calls + [Pair(name, value)];
      var i := 0;
      while i < |entries| && Precedes(Key(entries[i].name), Key(name))
        invariant i <= |entries| && entries == old(entries) && calls == old(calls) + [Pair(name, value)]
        invariant SetIn(entries, Pair(name, value)) == entries[..i] + SetIn(entries[i..], Pair(name, value))
      {
        assert entries[i..][0] == entries[i] && entries[i..][1..] == entries[i + 1..];
        ghost var others := SetIn(entries[i + 1..], Pair(name, value));
        assert entries[..i] + ([entries[i]] + others) == entries[..i + 1] + others;
        i := i + 1;
      }
      if i < |entries| && SameName(entries[i].name, name) {
        ghost var replaced := entries[i].(value := value);
        assert entries[i..][1..] == entries[i + 1..];
        assert entries[i := replaced] == entries[..i] + ([replaced] + entries[i + 1..]);
        entries := entries[i := entries[i].(value := value)];
      } else {
        assert i == |entries| ==> entries[i..] == [];
        entries := entries[..i] + ([Pair(name, value)] + entries[i..]);
      }
    }
  }

  // One entry a field

  ghost predicate DistinctNames(fields: seq<Pair>) {
    forall i, j :: 0 <= i < j < |fields| ==> !SameName(fields[i].name, fields[j].name)
  }

  lemma DistinctSplits(first: Pair, rest: seq<Pair>)
    ensures DistinctNames([first] + rest)
       <==> DistinctNames(rest) && forall i :: 0 <= i < |rest| ==> !SameName(first.name, rest[i].name)
  {
    hide SameName;
    var all := [first] + rest;
    assert all[0] == first && forall i :: 0 <= i < |rest| ==> rest[i] == all[i + 1];
  }

  ghost predicate AllFresh(entries: seq<Pair>, calls: seq<Pair>) {
    forall i :: 0 <= i < |calls| ==> Fresh(entries, calls[i].name)
  }

  lemma FreshAfterSet(entries: seq<Pair>, first: Pair, rest: seq<Pair>)
    requires IsSorted(entries)
    ensures AllFresh(entries, [first] + rest) && (forall i :: 0 <= i < |rest| ==> !SameName(first.name, rest[i].name))
       <==> Fresh(entries, first.name) && AllFresh(SetIn(entries, first), rest)
  {
    hide SameName, SetIn, IsSorted, Fresh;
    var all := [first] + rest;
    assert all[0] == first && forall i :: 0 <= i < |rest| ==> rest[i] == all[i + 1];
    forall i | 0 <= i < |rest|
      ensures Fresh(SetIn(entries, first), rest[i].name) <==> Fresh(entries, rest[i].name) && !SameName(first.name, rest[i].name)
    {
      SetInNames(entries, first, rest[i].name);
    }
  }

  /** Every call leaves an entry of its own exactly if all names differ from one another and from those held. */
  lemma {:induction false} SetAllKeeps(entries: seq<Pair>, calls: seq<Pair>)
    requires IsSorted(entries)
    ensures IsSorted(SetAllIn(entries, calls)) && |SetAllIn(entries, calls)| <= |entries| + |calls|
    ensures |SetAllIn(entries, calls)| == |entries| + |calls|
       <==> DistinctNames(calls) && AllFresh(entries, calls)
    ensures |SetAllIn(entries, calls)| == |entries| + |calls| ==>
              multiset(SetAllIn(entries, calls)) == multiset(entries) + multiset(calls)
    decreases |calls|
  {
    if calls != [] {
      hide SetIn, IsSorted, Fresh, DistinctNames, AllFresh, SameName;
      var first, rest := calls[0], calls[1..];
      SetInKeeps(entries, first);
      SetAllKeeps(SetIn(entries, first), rest);
      DistinctSplits(first, rest);
      FreshAfterSet(entries, first, rest);
      assert calls == [first] + rest;
    }
  }

  /** Escaping keeps names apart, and together, case ignored. */
  lemma {:induction false} SameEncodedName(a: string, b: string)
    requires IsAscii(a) && IsAscii(b)
    ensures SameName(Encode(a), Encode(b)) <==> SameName(a, b)
  {
    if a != "" && b != "" {
      SameEncodedName(a[1..], b[1..]);
      KeyOf(EncodeChar(a[0]), Encode(a[1..]));
      KeyOf(EncodeChar(b[0]), Encode(b[1..]));
      SameEncodedChar(a[0], b[0]);
      var x, y := Key(EncodeChar(a[0])), Key(EncodeChar(b[0]));
      SameHeads(x, Key(Encode(a[1..])), y, Key(Encode(b[1..])));
      SameHeads([ToLower(a[0])], Key(a[1..]), [ToLower(b[0])], Key(b[1..]));
      assert [ToLower(a[0])] == [ToLower(b[0])] <==> ToLower(a[0]) == ToLower(b[0]);
    } else {
      EncodedIsPlain(a);
      EncodedIsPlain(b);
    }
  }

  lemma {:induction false} KeyOf(a: string, b: string)
    ensures Key(a + b) == Key(a) + Key(b)
  {
    if a == "" {
      assert a + b == b;
    } else {
      KeyOf(a[1..], b);
      assert (a + b)[1..] == a[1..] + b;
    }
  }

  lemma SameHeads(a: string, c: string, b: string, d: string)
    requires |a| == |b| || (a != "" && b != "" && a[0] != b[0])
    ensures a + c == b + d <==> a == b && c == d
  {
    if a + c == b + d {
      assert a != "" && b != "" ==> (a + c)[0] == (b + d)[0];
      assert a == (a + c)[..|a|] && b == (b + d)[..|b|];
      assert c == (a + c)[|a|..] && d == (b + d)[|b|..];
    }
  }

  lemma SameEncodedChar(a: char, b: char)
    requires a < 128 as char && b < 128 as char
    ensures Key(EncodeChar(a)) == Key(EncodeChar(b)) <==> ToLower(a) == ToLower(b)
    ensures var x, y := Key(EncodeChar(a)), Key(EncodeChar(b)); |x| == |y| || x[0] != y[0]
  {
    KeyOfChar(a);
    KeyOfChar(b);
  }

  lemma KeyOfChar(c: char)
    requires c < 128 as char
    ensures Key(EncodeChar(c)) == if IsUnreserved(c) then [ToLower(c)]
                                  else ['%', ToLower(HexDigit(c as nat / 16)), ToLower(HexDigit(c as nat % 16))]
  {
    var text := EncodeChar(c);
    if !IsUnreserved(c) {
      assert Key(text) == [ToLower(text[0])] + Key(text[1..]);
      assert Key(text[1..]) == [ToLower(text[1])] + Key(text[1..][1..]);
      assert Key(text[1..][1..]) == [ToLower(text[2])] + Key(text[1..][1..][1..]);
    }
  }

  /** A form of full fields, read into an empty collection, leaves an entry for each field exactly if their names
      differ, case ignored; the entries are then the encoded fields. */
  lemma FormEntriesIff(fields: seq<Pair>)
    requires AllAscii(fields) && AllFull(fields)
    ensures var entries := SetAllIn([], SplitCalls([], "/?" + FormText(fields)));
            && (|entries| == |fields| <==> DistinctNames(fields))
            && (DistinctNames(fields) ==> forall i :: 0 <= i < |fields| ==> Encoded(fields[i]) in entries)
  {
    hide SameName, Encode, SetAllIn, FormText, SplitCalls;
    var calls := NonemptyFields(fields);
    SplitForm([], fields);
    KeptAll(fields);
    SetAllKeeps([], calls);
    forall i | 0 <= i < |fields| ensures calls[i] == Encoded(fields[i]) {
      KeptAt(fields, i);
    }
    forall i, j | 0 <= i < j < |fields|
      ensures SameName(calls[i].name, calls[j].name) <==> SameName(fields[i].name, fields[j].name)
    {
      SameEncodedName(fields[i].name, fields[j].name);
    }
    var entries := SetAllIn([], calls);
    forall i | 0 <= i < |fields| && DistinctNames(fields) ensures Encoded(fields[i]) in entries {
      assert calls[i] in multiset(calls);
      assert calls[i] in multiset(entries);
    }
  }

  lemma {:induction false} SetMore(entries: seq<Pair>, calls: seq<Pair>, call: Pair)
    ensures SetAllIn(entries, calls + [call]) == SetIn(SetAllIn(entries, calls), call)
    decreases |calls|
  {
    if calls == [] {
      assert [] + [call] == [call];
    } else {
      SetMore(SetIn(entries, calls[0]), calls[1..], call);
      assert (calls + [call])[1..] == calls[1..] + [call];
    }
  }

  lemma UntilStep(uri: string, i: nat, stop: char)
    ensures i < |uri| && uri[i] != stop ==> Until(Drop(uri, i), stop) == [uri[i]] + Until(Drop(uri, i + 1), stop)
    ensures i >= |uri| || uri[i] == stop ==> Until(Drop(uri, i), stop) == ""
  {
    if i < |uri| {
      assert uri[i..][0] == uri[i] && uri[i..][1..] == uri[i + 1..];
    }
  }

  lemma {:induction false} UntilEitherAt(text: string, a: char, b: char, i: nat)
    requires i <= |text| && a !in text[..i] && b !in text[..i] && (i < |text| ==> text[i] == a || text[i] == b)
    ensures UntilEither(text, a, b) == text[..i]
  {
    if i > 0 {
      assert text[..i] == [text[0]] + text[1..][..i - 1];
      UntilEitherAt(text[1..], a, b, i - 1);
    }
  }

  lemma {:induction false} UntilAt(text: string, stop: char, i: nat)
    requires i <= |text| && stop !in text[..i] && (i < |text| ==> text[i] == stop)
    ensures Until(text, stop) == text[..i]
  {
    if i > 0 {
      assert text[..i] == [text[0]] + text[1..][..i - 1];
      UntilAt(text[1..], stop, i - 1);
    }
  }

  lemma PathStep(uri: string, i: nat, value: string)
    requires i < |uri| && uri[i] != '?' && value == UntilEither(uri[i + 1..], '/', '?')
    ensures PathValues(uri[i..]) == (if value == "" then [] else [value]) + PathValues(uri[i + 1 + |value|..])
  {
    assert uri[i..][0] == uri[i] && uri[i..][1..] == uri[i + 1..] && uri[i..][1 + |value|..] == uri[i + 1 + |value|..];
  }

  /** Reads a part of the path, up to a slash or the question mark. */
  method TakePart(uri: string, start: nat) returns (value: string, i: nat)
    requires start <= |uri|
    ensures value == UntilEither(uri[start..], '/', '?') && '?' !in value
    ensures i == start + |value| && i <= |uri| && value == uri[start..i]
  {
    hide UntilEither;
    value, i := "", start;
    while i < |uri| && uri[i] != '/' && uri[i] != '?'
      invariant start <= i <= |uri| && value == uri[start..i] && '?' !in value && '/' !in value
    {
      value := value + [uri[i]];
      i := i + 1;
    }
    assert value == uri[start..][..i - start];
    UntilEitherAt(uri[start..], '/', '?', i - start);
  }

  /** The first loop of `splitURIParameters`; returns where it stops. */
  method SplitPath(uri: string, out: NVCollection) returns (i: nat)
    modifies out
    ensures i <= |uri| && QueryOf(uri) == Drop(uri, i + 1) && (i < |uri| ==> uri[i] == '?')
    ensures out.calls == old(out.calls) + PathCalls(old(out.entries), PathValues(uri))
    ensures out.entries == SetAllIn(old(out.entries), PathCalls(old(out.entries), PathValues(uri)))
  {
    hide SetIn, SameName, Decimal, PathValues, UntilEither, Until, SetAllIn;
    ghost var done: seq<Pair> := [];
    SetNone(out.entries);
    assert uri[0..] == uri;
    i := 0;
    while i < |uri| && uri[i] != '?'
      invariant i <= |uri| && '?' !in uri[..i]
      invariant done + PathCalls(out.entries, PathValues(uri[i..])) == PathCalls(old(out.entries), PathValues(uri))
      invariant out.calls == old(out.calls) + done && out.entries == SetAllIn(old(out.entries), done)
    {
      var value;
      ghost var start := i;
      value, i := TakePart(uri, i + 1);
      PathStep(uri, start, value);
      assert uri[..i] == uri[..start] + [uri[start]] + value;
      if value != "" {
        ghost var call := Pair(Decimal(|out.entries|), value);
        SetMore(old(out.entries), done, call);
        CallsMore(done, call, out.entries, value, PathValues(uri[i..]));
        done := done + [call];
        out.Set(Decimal(|out.entries|), value);
      } else {
        assert [] + PathValues(uri[i..]) == PathValues(uri[i..]);
      }
    }
    UntilAt(uri, '?', i);
    PathEnds(uri, i);
    assert done + [] == done;
  }

  lemma SetNone(entries: seq<Pair>)
    ensures SetAllIn(entries, []) == entries
  {
  }

  lemma CallsMore(done: seq<Pair>, call: Pair, entries: seq<Pair>, value: string, values: seq<string>)
    requires call == Pair(Decimal(|entries|), value)
    ensures done + PathCalls(entries, [value] + values) == (done + [call]) + PathCalls(SetIn(entries, call), values)
  {
    assert ([value] + values)[1..] == values;
  }

  lemma PathEnds(uri: string, i: nat)
    requires i <= |uri| && (i < |uri| ==> uri[i] == '?')
    ensures PathValues(uri[i..]) == []
  {
  }

  /** Reads up to a character, which it passes. */
  method TakeUntil(uri: string, start: nat, stop: char) returns (taken: string, next: nat)
    ensures taken == Until(Drop(uri, start), stop) && next == start + |taken| + 1
  {
    hide Until, Drop;
    taken := "";
    var i := start;
    while i < |uri| && uri[i] != stop
      invariant start <= i && |taken| == i - start
      invariant taken + Until(Drop(uri, i), stop) == Until(Drop(uri, start), stop)
    {
      UntilStep(uri, i, stop);
      taken := taken + [uri[i]];
      i := i + 1;
    }
    UntilStep(uri, i, stop);
    next := i + 1;
  }

  lemma QueryStep(uri: string, i: nat, name: string, value: string)
    requires i < |uri| && name == Until(Drop(uri, i), '=')
    requires value == Until(Drop(uri, i + |name| + 1), '&')
    ensures QueryFields(Drop(uri, i))
         == Nonempty(Pair(name, value)) + QueryFields(Drop(uri, i + |name| + 1 + |value| + 1))
  {
    hide Until, QueryFields, Nonempty;
    var query, m, n := Drop(uri, i), |name| + 1, |value| + 1;
    assert query != "";
    DropTwice(uri, i, m);
    DropTwice(uri, i + m, n);
    hide Drop;
    QueryUnfolds(query, name, value);
    assert Drop(query, m) == Drop(uri, i + m) && Drop(Drop(query, m), n) == Drop(uri, i + m + n);
  }

  lemma QueryUnfolds(query: string, name: string, value: string)
    requires query != "" && name == Until(query, '=') && value == Until(Drop(query, |name| + 1), '&')
    ensures QueryFields(query) == Nonempty(Pair(name, value)) + QueryFields(Drop(Drop(query, |name| + 1), |value| + 1))
  {
    hide Until, Drop, Nonempty;
  }

  lemma DropTwice(text: string, n: nat, m: nat)
    ensures Drop(Drop(text, n), m) == Drop(text, n + m)
  {
  }

  lemma Append(done: seq<Pair>, call: Pair, others: seq<Pair>)
    ensures done + ([call] + others) == (done + [call]) + others && done + ([] + others) == done + others
  {
  }

  method SplitURIParameters(uri: string, out: NVCollection) returns (any: bool)
    modifies out
    ensures out.calls == old(out.calls) + SplitCalls(old(out.entries), uri)
    ensures out.entries == SetAllIn(old(out.entries), SplitCalls(old(out.entries), uri)) && any == (out.entries != [])
  {
    hide SetIn, SetAllIn, PathCalls, PathValues, Until, QueryFields, Drop, QueryOf;
    BehindQuery(uri);
    var i := SplitPath(uri, out);
    ghost var done := PathCalls(old(out.entries), PathValues(uri));
    if i < |uri| && uri[i] == '?' { i := i + 1; }
    while i < |uri|
      invariant done + QueryFields(Drop(uri, i)) == SplitCalls(old(out.entries), uri)
      invariant out.calls == old(out.calls) + done && out.entries == SetAllIn(old(out.entries), done)
      decreases |uri| - i
    {
      var name, value;
      ghost var start := i;
      name, i := TakeUntil(uri, i, '=');
      value, i := TakeUntil(uri, i, '&');
      QueryStep(uri, start, name, value);
      if name != "" && value != "" {
        SetMore(old(out.entries), done, Pair(name, value));
        Append(done, Pair(name, value), QueryFields(Drop(uri, i)));
        done := done + [Pair(name, value)];
        out.Set(name, value);
      }
    }
    QueryEnds(uri, i);
    assert done + [] == done;
    any := |out.entries| > 0;
  }

  lemma BehindQuery(uri: string)
    ensures Drop(uri, |uri| + 1) == "" == Drop(uri, |uri|)
  {
  }

  lemma QueryEnds(uri: string, i: nat)
    requires i >= |uri|
    ensures QueryFields(Drop(uri, i)) == []
  {
  }
}
