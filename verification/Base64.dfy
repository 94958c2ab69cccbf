/** The resumable base64 codec (src/base/src/base64.cpp).

    Both directions are coroutines: a call may stop after any byte, and the next call resumes in the
    middle of a group. Each method is proved against a run of a one-byte step function; the theorems
    are about those runs. Text is `string`, data is `seq<byte>`.
 */
module Base64 {
  import opened CArithmetic
  import opened Runs

  type byte = bv8

  const LINE_LENGTH: nat := 72

  // The two lookup tables, written as ranges of characters.

  function EncodeValue(v: bv8): char {
    if v < 26 then 'A' + v as char
    else if v < 52 then 'a' + (v - 26) as char
    else if v < 62 then '0' + (v - 52) as char
    else if v == 62 then '+'
    else if v == 63 then '/'
    else '='
  }

  function DecodeValue(c: char): int {
    if 'A' <= c <= 'Z' then c as int - 'A' as int
    else if 'a' <= c <= 'z' then c as int - 'a' as int + 26
    else if '0' <= c <= '9' then c as int - '0' as int + 52
    else if c == '+' then 62
    else if c == '/' then 63
    else if c == '=' then -2
    else -1
  }

  /** `decode_value` inverts `encode_value` on all 64 sextets. */
  lemma DecodeEncodeValue(v: bv8)
    requires v <= 63
    ensures DecodeValue(EncodeValue(v)) == v as int
    ensures DecodeValue(EncodeValue(v)) as bv8 == v
  {
  }

  /** The alphabet of RFC 4648, section 4. */
  const CAPITALS := "ABCDEFGHIJKLMNOPQRSTUVWXYZ"
  const SMALL_LETTERS := "abcdefghijklmnopqrstuvwxyz"
  const DIGITS_AND_MARKS := "0123456789+/"

  function Alphabet(v: nat): char
    requires v < 64
  {
    if v < 26 then CAPITALS[v] else if v < 52 then SMALL_LETTERS[v - 26] else DIGITS_AND_MARKS[v - 52]
  }

  lemma AlphabetIs(v: nat)
    requires v < 64
    ensures Alphabet(v) == if v < 26 then 'A' + v as char else if v < 52 then 'a' + (v - 26) as char
                           else if v < 62 then '0' + (v - 52) as char else if v == 62 then '+' else '/'
  {
  }

  lemma EncodeValueIsAlphabet(v: bv8)
    requires v <= 63
    ensures EncodeValue(v) == Alphabet(v as nat)
  {
    hide Alphabet;
    AlphabetIs(v as nat);
  }

  ghost predicate InAlphabet(c: char) {
    exists v: nat :: v < 64 && Alphabet(v) == c
  }

  /** A character counts exactly if it is in the alphabet, and then for its place there. */
  lemma DecodeValueIff(c: char)
    ensures DecodeValue(c) >= 0 <==> InAlphabet(c)
    ensures DecodeValue(c) >= 0 ==> Alphabet(DecodeValue(c)) == c
  {
    hide Alphabet;
    forall v: nat | v < 64 && Alphabet(v) == c ensures DecodeValue(c) >= 0 {
      AlphabetIs(v);
    }
    if DecodeValue(c) >= 0 {
      DecodeValueRange(c);
      AlphabetIs(DecodeValue(c));
    }
  }

  lemma DecodeValueRange(c: char)
    ensures -2 <= DecodeValue(c) < 64
  {
  }

  // Encoder

  // The bit arithmetic of the three steps: a sextet to emit, and the bits that wait for the next byte.

  function Sextet1(fragment: byte): bv8 { (fragment & 0xfc) >> 2 }

  function Rest1(fragment: byte): bv8 { (fragment & 0x03) << 4 }

  function Sextet2(result: bv8, fragment: byte): bv8 { result | ((fragment & 0xf0) >> 4) }

  function Rest2(fragment: byte): bv8 { (fragment & 0x0f) << 2 }

  function Sextet3(result: bv8, fragment: byte): bv8 { result | ((fragment & 0xc0) >> 6) }

  function Sextet4(fragment: byte): bv8 { fragment & 0x3f }

  datatype EncodeStep = StepA | StepB | StepC

  /** The fields of `encodestate` that `encode_block` changes. */
  datatype EncodeSnapshot = EncodeSnapshot(step: EncodeStep, result: bv8, stepcount: nat)

  const INITIAL_ENCODE := EncodeSnapshot(StepA, 0, 0)

  function EncodeByte(s: EncodeSnapshot, lineLength: nat, fragment: byte): Result<EncodeSnapshot, char> {
    match s.step
    case StepA =>
      Result(EncodeSnapshot(StepB, Rest1(fragment), s.stepcount), [EncodeValue(Sextet1(fragment))])
    case StepB =>
      Result(EncodeSnapshot(StepC, Rest2(fragment), s.stepcount),
             [EncodeValue(Sextet2(s.result, fragment))])
    case StepC =>
      var (count, feed) := EndGroup(s.stepcount, lineLength);
      Result(EncodeSnapshot(StepA, Sextet4(fragment), count),
             [EncodeValue(Sextet3(s.result, fragment)), EncodeValue(Sextet4(fragment))] + feed)
  }

  /** The group count after a complete group, and the line feed if that group ends its line. */
  function EndGroup(stepcount: nat, lineLength: nat): (nat, string) {
    if lineLength == 0 then (stepcount, "")
    else if stepcount + 1 == lineLength / 4 then (0, "\n")
    else (stepcount + 1, "")
  }

  function Encoding(lineLength: nat): (EncodeSnapshot, byte) -> Result<EncodeSnapshot, char> {
    (s, fragment) => EncodeByte(s, lineLength, fragment)
  }

  function EncodeEnd(s: EncodeSnapshot, terminate: bool): string {
    (match s.step
     case StepA => ""
     case StepB => [EncodeValue(s.result), '=', '=']
     case StepC => [EncodeValue(s.result), '='])
    + (if terminate then "\n" else "")
  }

  class EncodeState {
    var step: EncodeStep
    var result: bv8
    var stepcount: nat
    var linelength: nat
    var nullTerminate: bool

    constructor ()
      ensures View() == EncodeSnapshot(StepA, 0, 0) && linelength == 72 && !nullTerminate
    {
      step, result, stepcount := StepA, 0, 0;
      linelength, nullTerminate := LINE_LENGTH, false;
    }

    function View(): EncodeSnapshot
      reads this
    {
      EncodeSnapshot(step, result, stepcount)
    }
  }

  /** `*p++ = c` on an output buffer. */
  method Emit<T>(out: array<T>, p: nat, c: T) returns (next: nat)
    requires p < out.Length
    modifies out
    ensures next == p + 1
    ensures out[..next] == old(out[..p]) + [c]
    ensures forall i :: next <= i < out.Length ==> out[i] == old(out[i])
  {
    out[p] := c;
    next := p + 1;
  }

  /** The last lines of step C: counts the group and ends the line when it is full. */
  method EmitLineFeed(codeOut: array<char>, p: nat, state: EncodeState) returns (next: nat)
    requires p + |EndGroup(state.stepcount, state.linelength).1| <= codeOut.Length
    modifies codeOut, state`stepcount
    ensures p <= next <= codeOut.Length
    ensures state.stepcount == EndGroup(old(state.stepcount), state.linelength).0
    ensures codeOut[..next] == old(codeOut[..p]) + EndGroup(old(state.stepcount), state.linelength).1
    ensures forall i :: next <= i < codeOut.Length ==> codeOut[i] == old(codeOut[i])
  {
    next := p;
    if state.linelength != 0 {
      state.stepcount := state.stepcount + 1;
      if state.stepcount == state.linelength / 4 {
        next := Emit(codeOut, next, '\n');
        state.stepcount := 0;
      }
    }
  }

  /** One turn of the coroutine: from the current `case` label to the next one. */
  method EncodeFragment(fragment: byte, step: EncodeStep, pending: bv8, codeOut: array<char>, p: nat, state: EncodeState)
    returns (step': EncodeStep, result: bv8, next: nat)
    requires p + |EncodeByte(EncodeSnapshot(step, pending, state.stepcount), state.linelength, fragment).output| <= codeOut.Length
    modifies codeOut, state`stepcount
    ensures next <= codeOut.Length
    ensures var done := EncodeByte(EncodeSnapshot(step, pending, old(state.stepcount)), state.linelength, fragment);
            EncodeSnapshot(step', result, state.stepcount) == done.state && codeOut[..next] == old(codeOut[..p]) + done.output
    ensures forall i :: next <= i < codeOut.Length ==> codeOut[i] == old(codeOut[i])
  {
    hide EncodeValue, EndGroup, Sextet1, Rest1, Sextet2, Rest2, Sextet3, Sextet4;
    match step {
      case StepA =>
        next := Emit(codeOut, p, EncodeValue(Sextet1(fragment)));
        result := Rest1(fragment);
        step' := StepB;
      case StepB =>
        next := Emit(codeOut, p, EncodeValue(Sextet2(pending, fragment)));
        result := Rest2(fragment);
        step' := StepC;
      case StepC =>
        next := Emit(codeOut, p, EncodeValue(Sextet3(pending, fragment)));
        result := Sextet4(fragment);
        next := Emit(codeOut, next, EncodeValue(result));
        next := EmitLineFeed(codeOut, next, state);
        step' := StepA;
    }
  }

  /** `encode_block`. The caller supplies room for the text this chunk produces. */
  method EncodeBlock(plaintext: seq<byte>, codeOut: array<char>, state: EncodeState) returns (written: nat)
    requires |Run(Encoding(state.linelength), state.View(), plaintext).output| <= codeOut.Length
    modifies codeOut, state`step, state`result, state`stepcount
    ensures written <= codeOut.Length
    ensures Result(state.View(), codeOut[..written]) == Run(Encoding(state.linelength), old(state.View()), plaintext)
    ensures forall i :: written <= i < codeOut.Length ==> codeOut[i] == old(codeOut[i])
  {
    ghost var lineLength := state.linelength;
    ghost var coding := Encoding(lineLength);
    ghost var start := state.View();
    var plainchar, codechar := 0, 0;
    var step, result := state.step, state.result;
    assert plaintext[..|plaintext|] == plaintext;
    while plainchar < |plaintext|
      invariant plainchar <= |plaintext| && 0 <= codechar <= codeOut.Length && state.linelength == lineLength
      invariant Result(EncodeSnapshot(step, result, state.stepcount), codeOut[..codechar])
             == Run(coding, start, plaintext[..plainchar])
      invariant forall i :: codechar <= i < codeOut.Length ==> codeOut[i] == old(codeOut[i])
    {
      hide EncodeByte, Run;
      RunGrows(coding, start, plaintext, plainchar + 1);
      RunNext(coding, start, plaintext, plainchar);
      step, result, codechar := EncodeFragment(plaintext[plainchar], step, result, codeOut, codechar, state);
      plainchar := plainchar + 1;
    }
    state.result := result;
    state.step := step;
    written := codechar;
  }

  /** `encode_blockend`. */
  method EncodeBlockEnd(codeOut: array<char>, state: EncodeState) returns (written: nat)
    requires |EncodeEnd(state.View(), state.nullTerminate)| <= codeOut.Length
    modifies codeOut
    ensures written <= codeOut.Length
    ensures codeOut[..written] == EncodeEnd(state.View(), state.nullTerminate)
    ensures forall i :: written <= i < codeOut.Length ==> codeOut[i] == old(codeOut[i])
  {
    var codechar := 0;
    match state.step {
      case StepB =>
        codechar := Emit(codeOut, codechar, EncodeValue(state.result));
        codechar := Emit(codeOut, codechar, '=');
        codechar := Emit(codeOut, codechar, '=');
      case StepC =>
        codechar := Emit(codeOut, codechar, EncodeValue(state.result));
        codechar := Emit(codeOut, codechar, '=');
      case StepA =>
    }
    if state.nullTerminate {
      codechar := Emit(codeOut, codechar, '\n');
    }
    written := codechar;
  }

  // Decoder

  // The bit arithmetic of the four steps: the start of a byte and the bits that complete it.

  function Start1(fragment: bv8): byte { (fragment & 0x3f) << 2 }

  function Finish1(carry: byte, fragment: bv8): byte { carry | ((fragment & 0x30) >> 4) }

  function Start2(fragment: bv8): byte { (fragment & 0x0f) << 4 }

  function Finish2(carry: byte, fragment: bv8): byte { carry | ((fragment & 0x3c) >> 2) }

  function Start3(fragment: bv8): byte { (fragment & 0x03) << 6 }

  function Finish3(carry: byte, fragment: bv8): byte { carry | (fragment & 0x3f) }

  datatype DecodeStep = DecodeA | DecodeB | DecodeC | DecodeD

  /** In step A the saved `plainchar` is overwritten before it is read, so it is kept at 0 here. */
  datatype DecodeSnapshot = DecodeSnapshot(step: DecodeStep, carry: byte)

  const INITIAL_DECODE := DecodeSnapshot(DecodeA, 0)

  function Snapshot(step: DecodeStep, plainchar: byte): DecodeSnapshot {
    DecodeSnapshot(step, if step == DecodeA then 0 else plainchar)
  }

  /** What one character of the alphabet does, given its sextet. */
  function DecodeSextet(s: DecodeSnapshot, fragment: bv8): Result<DecodeSnapshot, byte> {
    match s.step
    case DecodeA => Result(DecodeSnapshot(DecodeB, Start1(fragment)), [])
    case DecodeB => Result(DecodeSnapshot(DecodeC, Start2(fragment)), [Finish1(s.carry, fragment)])
    case DecodeC => Result(DecodeSnapshot(DecodeD, Start3(fragment)), [Finish2(s.carry, fragment)])
    case DecodeD => Result(INITIAL_DECODE, [Finish3(s.carry, fragment)])
  }

  function Fragment(c: char): bv8
    requires DecodeValue(c) >= 0
  {
    DecodeValueRange(c);
    DecodeValue(c) as bv8
  }

  function DecodeChar(s: DecodeSnapshot, c: char): Result<DecodeSnapshot, byte> {
    if DecodeValue(c) < 0 then Result(s, []) else DecodeSextet(s, Fragment(c))
  }

  const DECODING: (DecodeSnapshot, char) -> Result<DecodeSnapshot, byte> := (s, c) => DecodeChar(s, c)

  class DecodeState {
    var step: DecodeStep
    var plainchar: byte

    constructor ()
      ensures View() == INITIAL_DECODE
    {
      step, plainchar := DecodeA, 0;
    }

    function View(): DecodeSnapshot
      reads this
    {
      Snapshot(step, plainchar)
    }
  }

  /** One turn of the coroutine: `plaintextOut[p]` holds the partial byte. */
  method DecodeFragment(fragment: bv8, step: DecodeStep, plaintextOut: array<byte>, p: nat)
    returns (step': DecodeStep, next: nat)
    requires p < plaintextOut.Length
    requires p + |DecodeSextet(Snapshot(step, plaintextOut[p]), fragment).output| < plaintextOut.Length
    modifies plaintextOut
    ensures next < plaintextOut.Length
    ensures var done := DecodeSextet(Snapshot(step, old(plaintextOut[p])), fragment);
            Snapshot(step', plaintextOut[next]) == done.state && plaintextOut[..next] == old(plaintextOut[..p]) + done.output
  {
    hide Start1, Finish1, Start2, Finish2, Start3, Finish3;
    match step {
      case DecodeA =>
        next := p;
        plaintextOut[next] := Start1(fragment);
        step' := DecodeB;
      case DecodeB =>
        next := Emit(plaintextOut, p, Finish1(plaintextOut[p], fragment));
        plaintextOut[next] := Start2(fragment);
        step' := DecodeC;
      case DecodeC =>
        next := Emit(plaintextOut, p, Finish2(plaintextOut[p], fragment));
        plaintextOut[next] := Start3(fragment);
        step' := DecodeD;
      case DecodeD =>
        next := Emit(plaintextOut, p, Finish3(plaintextOut[p], fragment));
        step' := DecodeA;
    }
  }

  /** `decode_block`. The output needs one byte more than it receives: the partial byte is kept there. */
  method DecodeBlock(code: string, plaintextOut: array<byte>, state: DecodeState) returns (written: nat)
    requires |Run(DECODING, state.View(), code).output| < plaintextOut.Length
    modifies plaintextOut, state
    ensures written <= plaintextOut.Length
    ensures Result(state.View(), plaintextOut[..written]) == Run(DECODING, old(state.View()), code)
  {
    ghost var start := state.View();
    var codechar, plainchar := 0, 0;
    var step := state.step;
    plaintextOut[plainchar] := state.plainchar;
    assert code[..|code|] == code;
    while codechar < |code|
      invariant codechar <= |code| && 0 <= plainchar < plaintextOut.Length
      invariant Result(Snapshot(step, plaintextOut[plainchar]), plaintextOut[..plainchar])
             == Run(DECODING, start, code[..codechar])
    {
      hide DecodeValue, Fragment, DecodeSextet, Run;
      RunGrows(DECODING, start, code, codechar + 1);
      RunNext(DECODING, start, code, codechar);
      var c := code[codechar];
      codechar := codechar + 1;
      if DecodeValue(c) >= 0 {
        step, plainchar := DecodeFragment(Fragment(c), step, plaintextOut, plainchar);
      }
    }
    state.step := step;
    state.plainchar := plaintextOut[plainchar];
    written := plainchar;
  }

  // Whole texts

  /** What successive `encode_block` calls and a final `encode_blockend` emit. */
  function EncodeText(chunks: seq<seq<byte>>, lineLength: nat, terminate: bool): string {
    var run := RunChunks(Encoding(lineLength), INITIAL_ENCODE, chunks);
    run.output + EncodeEnd(run.state, terminate)
  }

  /** What successive `decode_block` calls emit. */
  function DecodeText(chunks: seq<string>): seq<byte> {
    RunChunks(DECODING, INITIAL_DECODE, chunks).output
  }

  // Round trip

  /** The state the decoder is in once it has read everything the encoder has emitted so far: the bits
      of the last, still incomplete byte are in the encoder's `result` and the decoder's carry. */
  ghost predicate InStep(e: EncodeSnapshot, d: DecodeSnapshot, data: seq<byte>, out: seq<byte>) {
    if e.step == StepA then d == INITIAL_DECODE && out == data
    else
      && data != [] && out == data[..|data| - 1]
      && Pending(e, d, data[|data| - 1])
  }

  ghost predicate Pending(e: EncodeSnapshot, d: DecodeSnapshot, last: byte) {
    || (e.step == StepB && e.result == Rest1(last) && d == DecodeSnapshot(DecodeB, Start1(Sextet1(last))))
    || (e.step == StepC && e.result == Rest2(last)
        && exists before: byte :: d == DecodeSnapshot(DecodeC, Start2(Sextet2(Rest1(before), last))))
  }

  lemma SextetRange(result: bv8, fragment: byte)
    requires result <= 63
    ensures Sextet1(fragment) <= 63 && Sextet2(result, fragment) <= 63
    ensures Sextet3(result, fragment) <= 63 && Sextet4(fragment) <= 63
    ensures Rest1(fragment) <= 63 && Rest2(fragment) <= 63
  {
  }

  lemma FirstByteBits(b0: byte, b1: byte)
    ensures Finish1(Start1(Sextet1(b0)), Sextet2(Rest1(b0), b1)) == b0
    ensures Finish1(Start1(Sextet1(b0)), Rest1(b0)) == b0
  {
  }

  lemma SecondByteBits(b0: byte, b1: byte, b2: byte)
    ensures Finish2(Start2(Sextet2(Rest1(b0), b1)), Sextet3(Rest2(b1), b2)) == b1
    ensures Finish2(Start2(Sextet2(Rest1(b0), b1)), Rest2(b1)) == b1
  {
  }

  lemma ThirdByteBits(b1: byte, b2: byte)
    ensures Finish3(Start3(Sextet3(Rest2(b1), b2)), Sextet4(b2)) == b2
  {
  }

  /** Each byte is recovered from its two sextets; every sextet is below 64. */
  lemma SextetBits(b0: byte, b1: byte, b2: byte)
    ensures Sextet1(b0) <= 63 && Sextet2(Rest1(b0), b1) <= 63 && Sextet3(Rest2(b1), b2) <= 63 && Sextet4(b2) <= 63
    ensures Rest1(b0) <= 63 && Rest2(b1) <= 63
    ensures Finish1(Start1(Sextet1(b0)), Sextet2(Rest1(b0), b1)) == b0
    ensures Finish2(Start2(Sextet2(Rest1(b0), b1)), Sextet3(Rest2(b1), b2)) == b1
    ensures Finish3(Start3(Sextet3(Rest2(b1), b2)), Sextet4(b2)) == b2
    ensures Finish1(Start1(Sextet1(b0)), Rest1(b0)) == b0
    ensures Finish2(Start2(Sextet2(Rest1(b0), b1)), Rest2(b1)) == b1
  {
    hide Sextet1, Rest1, Sextet2, Rest2, Sextet3, Sextet4, Start1, Finish1, Start2, Finish2, Start3, Finish3;
    SextetRange(0, b0);
    SextetRange(Rest1(b0), b1);
    SextetRange(Rest2(b1), b2);
    FirstByteBits(b0, b1);
    SecondByteBits(b0, b1, b2);
    ThirdByteBits(b1, b2);
  }

  lemma DecodeEncoded(d: DecodeSnapshot, v: bv8)
    requires v <= 63
    ensures Run(DECODING, d, [EncodeValue(v)]) == DecodeSextet(d, v)
  {
    hide EncodeValue, DecodeValue, DecodeSextet, Run;
    DecodeEncodeValue(v);
    RunOne(DECODING, d, EncodeValue(v));
  }

  /** Characters outside the alphabet (line feeds, padding) change nothing. */
  lemma {:induction false} DecodeIgnored(d: DecodeSnapshot, text: string)
    requires forall i :: 0 <= i < |text| ==> DecodeValue(text[i]) < 0
    ensures Run(DECODING, d, text) == Result(d, [])
  {
    if text != [] {
      DecodeIgnored(d, text[..|text| - 1]);
    }
  }

  /** A text without the characters that are not in the alphabet. */
  ghost function OnlyAlphabet(text: string): string {
    if text == "" then "" else OnlyAlphabet(text[..|text| - 1]) + if InAlphabet(text[|text| - 1]) then [text[|text| - 1]] else ""
  }

  /** Whatever stands between them, only the characters of the alphabet are decoded. */
  lemma {:induction false} DecodeSkips(d: DecodeSnapshot, text: string)
    ensures Run(DECODING, d, text) == Run(DECODING, d, OnlyAlphabet(text))
  {
    if text != "" {
      var init, last := text[..|text| - 1], text[|text| - 1];
      DecodeSkips(d, init);
      DecodeValueIff(last);
      RunConcat(DECODING, d, init, [last]);
      assert init + [last] == text;
      if DecodeValue(last) >= 0 {
        RunConcat(DECODING, d, OnlyAlphabet(init), [last]);
      } else {
        DecodeIgnored(Run(DECODING, d, init).state, [last]);
        assert OnlyAlphabet(init) + "" == OnlyAlphabet(init);
      }
    }
  }

  /** Decoding what the encoder emits for one more byte. */
  ghost predicate InStepAgain(e: EncodeSnapshot, lineLength: nat, d: DecodeSnapshot, data: seq<byte>, out: seq<byte>,
                              fragment: byte) {
    var encoded := EncodeByte(e, lineLength, fragment);
    var decoded := Run(DECODING, d, encoded.output);
    InStep(encoded.state, decoded.state, data + [fragment], out + decoded.output)
  }

  lemma InStepFromA(e: EncodeSnapshot, lineLength: nat, d: DecodeSnapshot, data: seq<byte>, out: seq<byte>, fragment: byte)
    requires InStep(e, d, data, out) && e.step == StepA
    ensures InStepAgain(e, lineLength, d, data, out, fragment)
  {
    hide EncodeValue, EndGroup, Sextet1, Rest1, Sextet2, Rest2, Sextet3, Sextet4, Start1, Finish1, Start2, Finish2,
         Start3, Finish3, DecodeValue, Run;
    SextetBits(fragment, 0, 0);
    DecodeEncoded(d, Sextet1(fragment));
    assert out + [] == out;
  }

  lemma InStepFromB(e: EncodeSnapshot, lineLength: nat, d: DecodeSnapshot, data: seq<byte>, out: seq<byte>, fragment: byte)
    requires InStep(e, d, data, out) && e.step == StepB
    ensures InStepAgain(e, lineLength, d, data, out, fragment)
  {
    hide EncodeValue, EndGroup, Sextet1, Rest1, Sextet2, Rest2, Sextet3, Sextet4, Start1, Finish1, Start2, Finish2,
         Start3, Finish3, DecodeValue, Run;
    var last := data[|data| - 1];
    SextetBits(last, fragment, 0);
    DecodeEncoded(d, Sextet2(Rest1(last), fragment));
    assert out + [last] == data;
  }

  lemma InStepFromC(e: EncodeSnapshot, lineLength: nat, d: DecodeSnapshot, data: seq<byte>, out: seq<byte>, fragment: byte)
    requires InStep(e, d, data, out) && e.step == StepC
    ensures InStepAgain(e, lineLength, d, data, out, fragment)
  {
    hide EncodeValue, EndGroup, Sextet1, Rest1, Sextet2, Rest2, Sextet3, Sextet4, Start1, Finish1, Start2, Finish2,
         Start3, Finish3, DecodeValue, Run;
    var last := data[|data| - 1];
    var before: byte :| d == DecodeSnapshot(DecodeC, Start2(Sextet2(Rest1(before), last)));
    SextetBits(before, last, fragment);
    DecodeGroupEnd(d, Sextet3(Rest2(last), fragment), Sextet4(fragment), e.stepcount, lineLength);
    assert out + [last, fragment] == data + [fragment];
  }

  /** Decoding keeps in step with encoding, byte by byte, with or without a line feed. */
  lemma InStepNext(e: EncodeSnapshot, lineLength: nat, d: DecodeSnapshot, data: seq<byte>, out: seq<byte>, fragment: byte)
    requires InStep(e, d, data, out)
    ensures InStepAgain(e, lineLength, d, data, out, fragment)
  {
    hide InStepAgain;
    match e.step
    case StepA => InStepFromA(e, lineLength, d, data, out, fragment);
    case StepB => InStepFromB(e, lineLength, d, data, out, fragment);
    case StepC => InStepFromC(e, lineLength, d, data, out, fragment);
  }

  lemma DecodeGroupEnd(d: DecodeSnapshot, third: bv8, fourth: bv8, stepcount: nat, lineLength: nat)
    requires d.step == DecodeC && third <= 63 && fourth <= 63
    ensures Run(DECODING, d, [EncodeValue(third), EncodeValue(fourth)] + EndGroup(stepcount, lineLength).1)
         == Result(INITIAL_DECODE, [Finish2(d.carry, third), Finish3(Start3(third), fourth)])
  {
    hide EncodeValue, Finish2, Start3, Finish3, Run;
    var feed := EndGroup(stepcount, lineLength).1;
    DecodeEncoded(d, third);
    DecodeEncoded(DecodeSextet(d, third).state, fourth);
    RunConcat(DECODING, d, [EncodeValue(third)], [EncodeValue(fourth)]);
    assert [EncodeValue(third)] + [EncodeValue(fourth)] == [EncodeValue(third), EncodeValue(fourth)];
    DecodeIgnored(INITIAL_DECODE, feed);
    RunConcat(DECODING, d, [EncodeValue(third), EncodeValue(fourth)], feed);
  }

  lemma {:induction false} InStepAfter(data: seq<byte>, lineLength: nat)
    ensures var encoded := Run(Encoding(lineLength), INITIAL_ENCODE, data);
            var decoded := Run(DECODING, INITIAL_DECODE, encoded.output);
            InStep(encoded.state, decoded.state, data, decoded.output)
  {
    hide InStep, EncodeByte;
    if data == [] {
      assert InStep(INITIAL_ENCODE, INITIAL_DECODE, [], []) by { InStepAtStart(); }
    } else {
      var init, last := data[..|data| - 1], data[|data| - 1];
      var encoded := Run(Encoding(lineLength), INITIAL_ENCODE, init);
      var decoded := Run(DECODING, INITIAL_DECODE, encoded.output);
      InStepAfter(init, lineLength);
      InStepNext(encoded.state, lineLength, decoded.state, init, decoded.output, last);
      RunConcat(DECODING, INITIAL_DECODE, encoded.output, EncodeByte(encoded.state, lineLength, last).output);
      assert init + [last] == data;
    }
  }

  lemma InStepAtStart()
    ensures InStep(INITIAL_ENCODE, INITIAL_DECODE, [], [])
  {
  }

  lemma DecodeEnd(e: EncodeSnapshot, d: DecodeSnapshot, data: seq<byte>, out: seq<byte>, terminate: bool)
    requires InStep(e, d, data, out)
    ensures out + Run(DECODING, d, EncodeEnd(e, terminate)).output == data
  {
    hide EncodeValue, Sextet1, Rest1, Sextet2, Rest2, Sextet3, Sextet4, Start1, Finish1, Start2, Finish2, Start3, Finish3, Run;
    var text := EncodeEnd(e, terminate);
    if e.step == StepA {
      DecodeIgnored(d, text);
    } else {
      var last := data[|data| - 1];
      if e.step == StepB {
        SextetBits(last, 0, 0);
      } else {
        var before: byte :| d == DecodeSnapshot(DecodeC, Start2(Sextet2(Rest1(before), last)));
        SextetBits(before, last, 0);
      }
      DecodeEncoded(d, e.result);
      DecodeIgnored(DecodeSextet(d, e.result).state, text[1..]);
      RunConcat(DECODING, d, [EncodeValue(e.result)], text[1..]);
      assert text == [EncodeValue(e.result)] + text[1..];
      assert out + [last] == data;
    }
  }

  /** Round trip: however the data is split over `encode_block` calls, whatever the line length, and
      however the text is split over `decode_block` calls, the decoder's output is the data. */
  lemma RoundTrip(chunks: seq<seq<byte>>, lineLength: nat, terminate: bool, codeChunks: seq<string>)
    requires Flatten(codeChunks) == EncodeText(chunks, lineLength, terminate)
    ensures DecodeText(codeChunks) == Flatten(chunks)
  {
    hide InStep, EncodeEnd, Run;
    var data := Flatten(chunks);
    RunChunksIsRun(Encoding(lineLength), INITIAL_ENCODE, chunks);
    RunChunksIsRun(DECODING, INITIAL_DECODE, codeChunks);
    var encoded := Run(Encoding(lineLength), INITIAL_ENCODE, data);
    var decoded := Run(DECODING, INITIAL_DECODE, encoded.output);
    InStepAfter(data, lineLength);
    DecodeEnd(encoded.state, decoded.state, data, decoded.output, terminate);
    RunConcat(DECODING, INITIAL_DECODE, encoded.output, EncodeEnd(encoded.state, terminate));
  }

  // The encoder against RFC 4648

  /** The four characters of one 24-bit group (RFC 4648, section 4). */
  function Group(b0: byte, b1: byte, b2: byte): string {
    var bits := (b0 as bv24 << 16) | (b1 as bv24 << 8) | b2 as bv24;
    [EncodeValue((bits >> 18) as bv8), EncodeValue(((bits >> 12) & 63) as bv8),
     EncodeValue(((bits >> 6) & 63) as bv8), EncodeValue((bits & 63) as bv8)]
  }

  lemma GroupBits(b0: byte, b1: byte, b2: byte)
    ensures Group(b0, b1, b2)
         == [EncodeValue(Sextet1(b0)), EncodeValue(Sextet2(Rest1(b0), b1)),
             EncodeValue(Sextet3(Rest2(b1), b2)), EncodeValue(Sextet4(b2))]
  {
    hide EncodeValue;
  }

  lemma PaddingBits(b0: byte, b1: byte)
    ensures Rest1(b0) == Sextet2(Rest1(b0), 0) && Rest2(b1) == Sextet3(Rest2(b1), 0)
  {
  }

  /** The complete groups of `data[..3 * k]`, with a line feed after every `lineLength / 4` of them. */
  function Lines(data: seq<byte>, lineLength: nat, k: nat): string
    requires 3 * k <= |data|
  {
    if k == 0 then ""
    else Lines(data, lineLength, k - 1)
         + Group(data[3 * k - 3], data[3 * k - 2], data[3 * k - 1])
         + Feed(lineLength, k)
  }

  function Feed(lineLength: nat, k: nat): string {
    if lineLength / 4 != 0 && k % (lineLength / 4) == 0 then "\n" else ""
  }

  /** The last one or two bytes, zero-extended to a group and padded. */
  function Padded(rest: seq<byte>): string
    requires |rest| < 3
  {
    if |rest| == 0 then ""
    else if |rest| == 1 then Group(rest[0], 0, 0)[..2] + "=="
    else Group(rest[0], rest[1], 0)[..3] + "="
  }

  /** The number of complete groups on the current line. */
  function OnLine(lineLength: nat, k: nat): nat {
    if lineLength == 0 then 0 else if lineLength / 4 == 0 then k else k % (lineLength / 4)
  }

  lemma ModNext(k: nat, m: nat)
    requires m != 0
    ensures (k + 1) % m == if k % m + 1 == m then 0 else k % m + 1
  {
    var q, r := k / m, k % m;
    assert k == m * q + r;
    if r + 1 == m {
      assert k + 1 == m * (q + 1) + 0;
      DivUnique(k + 1, m, q + 1, 0);
    } else {
      DivUnique(k + 1, m, q, r + 1);
    }
  }

  lemma EndGroupOnLine(lineLength: nat, k: nat)
    ensures EndGroup(OnLine(lineLength, k), lineLength)
         == (OnLine(lineLength, k + 1), Feed(lineLength, k + 1))
  {
    if lineLength / 4 != 0 { ModNext(k, lineLength / 4); }
  }

  lemma EncodeGroup(s: EncodeSnapshot, lineLength: nat, b0: byte, b1: byte, b2: byte)
    requires s.step == StepA
    ensures var (count, feed) := EndGroup(s.stepcount, lineLength);
            Run(Encoding(lineLength), s, [b0, b1, b2])
            == Result(EncodeSnapshot(StepA, Sextet4(b2), count), Group(b0, b1, b2) + feed)
  {
    hide EncodeValue, EndGroup, Sextet1, Rest1, Sextet2, Rest2, Sextet3, Sextet4, Group, Run;
    var coding := Encoding(lineLength);
    RunOne(coding, s, b0);
    RunSnoc(coding, s, [b0], b1);
    assert [b0] + [b1] == [b0, b1];
    RunSnoc(coding, s, [b0, b1], b2);
    assert [b0, b1] + [b2] == [b0, b1, b2];
    GroupBits(b0, b1, b2);
  }

  lemma {:induction false} EncodeGroups(data: seq<byte>, lineLength: nat, k: nat)
    requires 3 * k <= |data|
    ensures var encoded := Run(Encoding(lineLength), INITIAL_ENCODE, data[..3 * k]);
            encoded.state.step == StepA && encoded.state.stepcount == OnLine(lineLength, k)
            && encoded.output == Lines(data, lineLength, k)
    decreases k
  {
    hide EncodeByte, EndGroup, OnLine, Feed, Group;
    if k == 0 {
      OnLineZero(lineLength);
    } else {
      hide Run;
      var lines, feed := Lines(data, lineLength, k - 1), Feed(lineLength, k);
      var group := [data[3 * k - 3], data[3 * k - 2], data[3 * k - 1]];
      EncodeGroups(data, lineLength, k - 1);
      EncodeGroup(Run(Encoding(lineLength), INITIAL_ENCODE, data[..3 * k - 3]).state, lineLength, group[0], group[1], group[2]);
      EndGroupOnLine(lineLength, k - 1);
      RunConcat(Encoding(lineLength), INITIAL_ENCODE, data[..3 * k - 3], group);
      assert data[..3 * k] == data[..3 * k - 3] + group;
      assert 3 * (k - 1) == 3 * k - 3;
      var text := Group(group[0], group[1], group[2]);
      assert lines + (text + feed) == lines + text + feed;
    }
  }

  lemma OnLineZero(lineLength: nat)
    ensures OnLine(lineLength, 0) == 0
  {
  }

  lemma EncodeLastByte(s: EncodeSnapshot, lineLength: nat, b0: byte, terminate: bool)
    requires s.step == StepA
    ensures var encoded := Run(Encoding(lineLength), s, [b0]);
            encoded.output + EncodeEnd(encoded.state, terminate) == Padded([b0]) + EncodeEnd(s, terminate)
  {
    hide EncodeValue, EndGroup, Sextet1, Rest1, Sextet2, Rest2, Sextet3, Sextet4, Group, Run;
    RunOne(Encoding(lineLength), s, b0);
    GroupBits(b0, 0, 0);
    PaddingBits(b0, 0);
  }

  lemma EncodeLastTwoBytes(s: EncodeSnapshot, lineLength: nat, b0: byte, b1: byte, terminate: bool)
    requires s.step == StepA
    ensures var encoded := Run(Encoding(lineLength), s, [b0, b1]);
            encoded.output + EncodeEnd(encoded.state, terminate) == Padded([b0, b1]) + EncodeEnd(s, terminate)
  {
    hide EncodeValue, EndGroup, Sextet1, Rest1, Sextet2, Rest2, Sextet3, Sextet4, Group, Run;
    RunOne(Encoding(lineLength), s, b0);
    RunSnoc(Encoding(lineLength), s, [b0], b1);
    assert [b0] + [b1] == [b0, b1];
    var (c0, c1, c2) := (EncodeValue(Sextet1(b0)), EncodeValue(Sextet2(Rest1(b0), b1)), EncodeValue(Rest2(b1)));
    var encoded := Run(Encoding(lineLength), s, [b0, b1]);
    assert encoded.output == [c0, c1];
    assert encoded.output + EncodeEnd(encoded.state, terminate) == [c0, c1, c2, '='] + EncodeEnd(s, terminate);
    GroupBits(b0, b1, 0);
    PaddingBits(0, b1);
    assert Group(b0, b1, 0)[..3] == [c0, c1, c2];
    assert Padded([b0, b1]) == [c0, c1, c2, '='];
  }

  lemma EncodeRest(s: EncodeSnapshot, lineLength: nat, rest: seq<byte>, terminate: bool)
    requires s.step == StepA && |rest| < 3
    ensures var encoded := Run(Encoding(lineLength), s, rest);
            encoded.output + EncodeEnd(encoded.state, terminate) == Padded(rest) + (if terminate then "\n" else "")
  {
    hide EncodeByte, Group, Run;
    if |rest| == 0 {
      RunEmpty(Encoding(lineLength), s);
      assert rest == [];
    } else if |rest| == 1 {
      EncodeLastByte(s, lineLength, rest[0], terminate);
      assert rest == [rest[0]];
    } else {
      EncodeLastTwoBytes(s, lineLength, rest[0], rest[1], terminate);
      assert rest == [rest[0], rest[1]];
    }
  }

  /** The encoder's whole output, whatever the chunks: complete groups in lines, then the padded rest. */
  lemma EncodeMeetsSpecification(chunks: seq<seq<byte>>, lineLength: nat, terminate: bool)
    ensures var data := Flatten(chunks);
            var k := |data| / 3;
            EncodeText(chunks, lineLength, terminate)
            == Lines(data, lineLength, k) + Padded(data[3 * k..]) + (if terminate then "\n" else "")
  {
    hide EncodeByte, Run, Lines, Padded;
    var data := Flatten(chunks);
    var k := |data| / 3;
    var coding := Encoding(lineLength);
    RunChunksIsRun(coding, INITIAL_ENCODE, chunks);
    EncodeGroups(data, lineLength, k);
    EncodeRest(Run(coding, INITIAL_ENCODE, data[..3 * k]).state, lineLength, data[3 * k..], terminate);
    RunConcat(coding, INITIAL_ENCODE, data[..3 * k], data[3 * k..]);
    assert data == data[..3 * k] + data[3 * k..];
    var rest := Run(coding, Run(coding, INITIAL_ENCODE, data[..3 * k]).state, data[3 * k..]);
    var end := EncodeEnd(rest.state, terminate);
    assert (Lines(data, lineLength, k) + rest.output) + end == Lines(data, lineLength, k) + (rest.output + end);
  }
}
