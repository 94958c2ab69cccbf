/** Decimal numbers in text: what `numeric::format` and `numeric::format0` of src/base/src/numeric.cpp print, and
    how the macros of src/base/src/datetime.cpp read digits back.
 */
module Numerals {
  import opened Powers

  predicate IsDigit(c: char) {
    '0' <= c <= '9'
  }

  function Digit(n: nat): (c: char)
    requires n < 10
    ensures IsDigit(c) && DigitValue(c) == n
  {
    '0' + n as char
  }

  function DigitValue(c: char): nat
    requires IsDigit(c)
  {
    c as nat - '0' as nat
  }

  function Decimal(n: nat): (text: string)
    ensures |text| >= 1
  {
    (if n < 10 then "" else Decimal(n / 10)) + [Digit(n % 10)]
  }

  function Repeat(c: char, n: int): string {
    seq(if n > 0 then n else 0, _ => c)
  }

  function Signed(n: int): string {
    if n >= 0 then Decimal(n) else "-" + Decimal(-n)
  }

  function Padded(n: nat, width: int): string {
    Repeat('0', width - |Decimal(n)|) + Decimal(n)
  }

  /** At least as wide as the width: with zeros behind a sign, or with spaces in front of it. */
  function Format0(n: int, width: nat): string {
    if n >= 0 then Padded(n, width) else "-" + Padded(-n, width - 1)
  }

  function Format(n: int, width: nat): string {
    Repeat(' ', width - |Signed(n)|) + Signed(n)
  }

  lemma PowersOf10()
    ensures Pow(10, 1) == 10 && Pow(10, 2) == 100 && Pow(10, 3) == 1000 && Pow(10, 4) == 10000 && Pow(10, 6) == 1000000
  {
    assert Pow(10, 3) == 1000;
    assert Pow(10, 6) == 10 * (10 * (10 * Pow(10, 3)));
  }

  /** The lowest digits of a number. */
  function Fixed(n: nat, width: nat): (text: string)
    ensures |text| == width && forall i :: 0 <= i < |text| ==> IsDigit(text[i])
  {
    if width == 0 then "" else Fixed(n / 10, width - 1) + [Digit(n % 10)]
  }

  lemma {:induction false} DecimalFits(n: nat, width: nat)
    requires n < Pow(10, width) && width > 0
    ensures |Decimal(n)| <= width
  {
    if n >= 10 { DecimalFits(n / 10, width - 1); }
  }

  lemma {:induction false} DecimalBound(n: nat)
    ensures n < Pow(10, |Decimal(n)|)
  {
    if n >= 10 {
      DecimalBound(n / 10);
      assert Pow(10, |Decimal(n)|) == 10 * Pow(10, |Decimal(n / 10)|);
    }
  }

  /** A number that fits the width is printed with exactly that many digits. */
  lemma {:induction false} Format0IsFixed(n: nat, width: nat)
    requires n < Pow(10, width) && width > 0
    ensures Format0(n, width) == Fixed(n, width)
  {
    DecimalFits(n, width);
    if width == 1 {
      assert Fixed(n, 1) == [] + [Digit(n % 10)];
      assert Repeat('0', 0) + Decimal(n) == Decimal(n);
    } else {
      Format0IsFixed(n / 10, width - 1);
      DecimalFits(n / 10, width - 1);
      assert n < 10 ==> Format0(n / 10, width - 1) == Repeat('0', width - 2) + [Digit(0)] == Repeat('0', width - 1);
    }
  }

  // Reading

  /** `PARSE_NUMBER_N`: up to n digits, appended to the number so far. */
  function Number(text: string, n: nat, soFar: int): (int, string) {
    if n == 0 || text == "" || !IsDigit(text[0]) then (soFar, text)
    else Number(text[1..], n - 1, soFar * 10 + DigitValue(text[0]))
  }

  /** `PARSE_FRACTIONAL_N`: as if missing digits were zeros. */
  function Fraction(text: string, n: nat, soFar: int): (int, string) {
    if n == 0 || text == "" || !IsDigit(text[0]) then (soFar * Pow(10, n), text)
    else Fraction(text[1..], n - 1, soFar * 10 + DigitValue(text[0]))
  }

  function ValueOf(digits: string, soFar: int): int
    requires forall i :: 0 <= i < |digits| ==> IsDigit(digits[i])
  {
    if digits == "" then soFar else ValueOf(digits[1..], soFar * 10 + DigitValue(digits[0]))
  }

  lemma {:induction false} ValueOfMore(digits: string, c: char, soFar: int)
    requires IsDigit(c) && forall i :: 0 <= i < |digits| ==> IsDigit(digits[i])
    ensures ValueOf(digits + [c], soFar) == ValueOf(digits, soFar) * 10 + DigitValue(c)
    decreases |digits|
  {
    if digits == "" {
      assert digits + [c] == [c];
    } else {
      ValueOfMore(digits[1..], c, soFar * 10 + DigitValue(digits[0]));
      assert (digits + [c])[1..] == digits[1..] + [c];
    }
  }

  lemma {:induction false} ValueOfFixed(n: nat, width: nat)
    requires n < Pow(10, width)
    ensures ValueOf(Fixed(n, width), 0) == n
  {
    if width > 0 {
      ValueOfFixed(n / 10, width - 1);
      ValueOfMore(Fixed(n / 10, width - 1), Digit(n % 10), 0);
    }
  }

  lemma {:induction false} NumberTakes(digits: string, tail: string, more: nat, soFar: int)
    requires forall i :: 0 <= i < |digits| ==> IsDigit(digits[i])
    ensures Number(digits + tail, |digits| + more, soFar) == Number(tail, more, ValueOf(digits, soFar))
    ensures Fraction(digits + tail, |digits| + more, soFar) == Fraction(tail, more, ValueOf(digits, soFar))
    decreases |digits|
  {
    if digits == "" {
      assert digits + tail == tail;
    } else {
      NumberTakes(digits[1..], tail, more, soFar * 10 + DigitValue(digits[0]));
      assert (digits + tail)[1..] == digits[1..] + tail;
    }
  }

  lemma {:induction false} ValueOfConcat(a: string, b: string)
    requires forall i :: 0 <= i < |a| ==> IsDigit(a[i])
    requires forall i :: 0 <= i < |b| ==> IsDigit(b[i])
    ensures ValueOf(a + b, 0) == ValueOf(a, 0) * Pow(10, |b|) + ValueOf(b, 0)
    ensures 0 <= ValueOf(b, 0) < Pow(10, |b|)
    decreases |b|
  {
    if b == "" {
      assert a + b == a;
    } else {
      var start, last := b[..|b| - 1], b[|b| - 1];
      ValueOfConcat(a, start);
      ValueOfMore(start, last, 0);
      ValueOfMore(a + start, last, 0);
      assert start + [last] == b && (a + start) + [last] == a + b;
      ShiftedSum(ValueOf(a, 0), Pow(10, |start|), ValueOf(start, 0), DigitValue(last));
    }
  }

  lemma ShiftedSum(a: int, p: nat, b: int, digit: nat)
    requires 0 <= b < p && digit < 10
    ensures (a * p + b) * 10 + digit == a * (10 * p) + (b * 10 + digit) && b * 10 + digit < 10 * p
  {
    assert a * (10 * p) == 10 * (a * p);
  }

  /** Digits before something else: those that are missing count as zeros. */
  lemma FractionFills(digits: string, tail: string, n: nat)
    requires |digits| <= n && forall i :: 0 <= i < |digits| ==> IsDigit(digits[i])
    requires tail == "" || !IsDigit(tail[0])
    ensures Fraction(digits + tail, n, 0) == (ValueOf(digits, 0) * Pow(10, n - |digits|), tail)
  {
    NumberTakes(digits, tail, n - |digits|, 0);
  }

  /** Reading as many digits as were printed gives the number back. */
  lemma ReadsBack(n: nat, width: nat, tail: string)
    requires n < Pow(10, width) && width > 0
    ensures Number(Format0(n, width) + tail, width, 0) == (n, tail)
    ensures Fraction(Format0(n, width) + tail, width, 0) == (n, tail)
    ensures Format0(n, width) != "" && IsDigit(Format0(n, width)[0])
  {
    Format0IsFixed(n, width);
    NumberTakes(Fixed(n, width), tail, 0, 0);
    ValueOfFixed(n, width);
  }

  /** Reading no fewer digits than were printed, up to where no digit follows. */
  lemma ReadsPadded(n: nat, width: int, limit: nat, tail: string)
    requires |Padded(n, width)| <= limit && (|Padded(n, width)| == limit || tail == "" || !IsDigit(tail[0]))
    ensures Number(Padded(n, width) + tail, limit, 0) == (n, tail)
    ensures Padded(n, width) != "" && IsDigit(Padded(n, width)[0])
  {
    var k := if width > |Decimal(n)| then width else |Decimal(n)|;
    DecimalBound(n);
    PowGrows(|Decimal(n)|, k);
    Format0IsFixed(n, k);
    assert Padded(n, width) == Fixed(n, k);
    NumberTakes(Fixed(n, k), tail, limit - k, 0);
    ValueOfFixed(n, k);
  }

  lemma Format0IsDigits(n: nat, width: nat)
    ensures forall i :: 0 <= i < |Format0(n, width)| ==> IsDigit(Format0(n, width)[i])
  {
    DecimalIsDigits(n);
  }

  lemma {:induction false} DecimalIsDigits(n: nat)
    ensures forall i :: 0 <= i < |Decimal(n)| ==> IsDigit(Decimal(n)[i])
  {
    if n >= 10 { DecimalIsDigits(n / 10); }
  }

  lemma {:induction false} PowGrows(m: nat, k: nat)
    requires m <= k
    ensures Pow(10, m) <= Pow(10, k)
    decreases k
  {
    if m < k { PowGrows(m, k - 1); }
  }

  function Size(n: int): nat {
    if n >= 0 then n else -n
  }

  /** A sign is not read: what comes back is the size of the number. */
  lemma ReadsSize(n: int, width: nat, limit: nat, tail: string)
    requires |Padded(Size(n), if n >= 0 then width else width - 1)| <= limit && (tail == "" || !IsDigit(tail[0]))
    ensures var digits := Padded(Size(n), if n >= 0 then width else width - 1);
            && Format0(n, width) == (if n >= 0 then "" else "-") + digits
            && Number(digits + tail, limit, 0) == (Size(n), tail) && digits != "" && IsDigit(digits[0])
  {
    ReadsPadded(Size(n), if n >= 0 then width else width - 1, limit, tail);
    assert "" + Format0(n, width) == Format0(n, width);
  }

  lemma TwoDigitsAtMost(text: string)
    ensures 0 <= Number(text, 2, 0).0 <= 99
  {
    if text != "" && IsDigit(text[0]) {
      var first := DigitValue(text[0]);
      assert Number(text, 2, 0) == Number(text[1..], 1, first);
      assert 0 <= Number(text[1..], 1, first).0 <= 10 * first + 9;
    }
  }
}
