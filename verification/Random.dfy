/** The additive feedback random number generator (src/base/src/random.cpp).

    `goodRand` is Schrage's form of the Park-Miller product; `next` adds two cells of a circular table.
    The table is proved to be a window on an unbounded linear recurrence.
 */
module Random {
  import opened CArithmetic
  import opened Powers

  const M: int := 0x7FFF_FFFF
  const TWO_32: int := 0x1_0000_0000

  /** Reading a `uint32_t` as an `int32_t`. */
  function ToInt32(x: uint32): int32 {
    if x <= 0x7FFF_FFFF then x else x - TWO_32
  }

  /** `goodRand`. Every intermediate value is an `int32`: the result types of the locals say so. */
  function GoodRand(x: int32): uint32 {
    var x0: int32 := if x == 0 then 123459876 else x;
    var hi: int32 := Quotient(x0, 127773);
    var lo: int32 := Remainder(x0, 127773);
    var low: int32 := 16807 * lo;
    var high: int32 := 2836 * hi;
    var product: int32 := low - high;
    if product < 0 then var wrapped: int32 := product + M; wrapped else product
  }

  lemma ResidueUnique(n: int, r: int, k: int)
    requires 0 <= r < M && n == r + M * k
    ensures n % M == r
  {
  }

  /** For every nonzero int32 the result is the residue of 16807 * x modulo 2^31 - 1. */
  lemma GoodRandIsResidue(x: int32)
    requires x != 0
    ensures GoodRand(x) == (16807 * x) % M
  {
    var hi, lo := Quotient(x, 127773), Remainder(x, 127773);
    var product := 16807 * lo - 2836 * hi;
    assert 16807 * x == product + M * hi;
    var k := if product < 0 then hi - 1 else hi;
    ResidueUnique(16807 * x, GoodRand(x), k);
  }

  /** Zero stands for 123459876, and no result is negative. */
  lemma GoodRandRange(x: int32)
    ensures GoodRand(x) < M && GoodRand(0) == 16807 * 123459876 % M
  {
    if x == 0 {
      assert GoodRand(0) == GoodRand(123459876);
    }
    GoodRandIsResidue(if x == 0 then 123459876 else x);
    GoodRandIsResidue(123459876);
  }

  const INVERSE: int := 1407677000

  function Ungood(y: int): int {
    (INVERSE * y) % M
  }

  /** 16807 * INVERSE is 1 modulo M: multiplying by one and then by the other gives the argument back. */
  lemma MultiplierUndone(x: int, a: int, b: int, y: int)
    requires 1 <= x < M && a * b == 1 + 11017 * M && y == (a * x) % M
    ensures 1 <= y && (b * y) % M == x
  {
    var k := (a * x) / M;
    assert a * x == y + M * k;
    assert b * (a * x) == b * y + b * (M * k);
    assert b * (a * x) == (a * b) * x;
    assert (1 + 11017 * M) * x == x + M * (11017 * x);
    assert b * (M * k) == M * (b * k);
    assert b * y == x + M * (11017 * x) - M * (b * k) == x + M * (11017 * x - b * k);
    ResidueUnique(b * y, x, 11017 * x - b * k);
  }

  /** `goodRand` permutes 1 .. 2^31 - 2: `Ungood` undoes it on both sides. */
  lemma GoodRandPermutes(x: int32)
    requires 1 <= x < M
    ensures 1 <= GoodRand(x) < M && Ungood(GoodRand(x)) == x
    ensures 1 <= Ungood(x) < M && GoodRand(Ungood(x)) == x
  {
    hide GoodRand;
    GoodRandIsResidue(x);
    MultiplierUndone(x, 16807, INVERSE, (16807 * x) % M);
    MultiplierUndone(x, INVERSE, 16807, Ungood(x));
    GoodRandIsResidue(Ungood(x));
  }

  // Seeding

  /** The i-th word of the table that `seed` fills before it cycles the generator. */
  function SeedWord(x: uint32, i: nat): uint32 {
    if i == 0 then x else GoodRand(ToInt32(SeedWord(x, i - 1)))
  }

  function SeedTable(x: uint32, deg: nat): seq<uint32> {
    seq(deg, i requires 0 <= i < deg => SeedWord(x, i))
  }

  lemma PowStep(s: int, i: nat, w: int)
    requires w == (Pow(16807, i) * s) % M
    ensures (16807 * w) % M == (Pow(16807, i + 1) * s) % M
  {
    var n := Pow(16807, i) * s;
    var k := n / M;
    assert n == w + M * k;
    assert Pow(16807, i + 1) * s == 16807 * n;
    var j := (16807 * w) / M;
    ResidueUnique(16807 * n, (16807 * w) % M, j + 16807 * k);
  }

  lemma {:induction false} SeedWordIsPower(x: uint32, i: nat)
    requires i >= 1 && ToInt32(x) % M != 0
    ensures 1 <= SeedWord(x, i) < M && SeedWord(x, i) == (Pow(16807, i) * ToInt32(x)) % M
  {
    hide GoodRand;
    var s := ToInt32(x);
    if i == 1 {
      GoodRandIsResidue(s);
      var r := s % M;
      assert s == r + M * (s / M);
      MultiplierUndone(r, 16807, INVERSE, (16807 * r) % M);
      var j := (16807 * r) / M;
      ResidueUnique(16807 * s, (16807 * r) % M, j + 16807 * (s / M));
      assert Pow(16807, 1) == 16807 * Pow(16807, 0) == 16807;
    } else {
      SeedWordIsPower(x, i - 1);
      var w := SeedWord(x, i - 1);
      GoodRandIsResidue(w);
      GoodRandPermutes(w);
      PowStep(s, i - 1, w);
    }
  }

  /** The table holds the powers 16807^i * x exactly when the seed, read as an int32, is not a multiple of M. */
  lemma SeedTableIsPowers(x: uint32, deg: nat)
    requires deg >= 3
    ensures (forall i :: 1 <= i < deg ==> SeedTable(x, deg)[i] == (Pow(16807, i) * ToInt32(x)) % M)
       <==> ToInt32(x) % M != 0
  {
    if ToInt32(x) % M != 0 {
      forall i | 1 <= i < deg ensures SeedTable(x, deg)[i] == (Pow(16807, i) * ToInt32(x)) % M {
        SeedWordIsPower(x, i);
      }
    } else {
      var s := ToInt32(x);
      assert s == 0 || s == M || s == -M;
      MultipleOfM(Pow(16807, 1), s);
      MultipleOfM(Pow(16807, 2), s);
      var i := if s == 0 then 1 else 2;
      assert SeedWord(x, 2) == GoodRand(ToInt32(SeedWord(x, 1)));
      assert SeedTable(x, deg)[i] != (Pow(16807, i) * s) % M;
    }
  }

  lemma MultipleOfM(p: int, s: int)
    requires s == 0 || s == M || s == -M
    ensures (p * s) % M == 0
  {
    ResidueUnique(p * s, 0, if s == 0 then 0 else if s == M then p else -p);
  }

  // The recurrence

  /** The types of generators, by their degree and separation: x^7 + x^3 + 1 is type 1, and so on. */
  predicate IsType(randType: nat, deg: nat, sep: nat) {
    match randType
    case 0 => deg == 0 && sep == 0
    case 1 => deg == 7 && sep == 3
    case 2 => deg == 15 && sep == 1
    case 3 => deg == 31 && sep == 3
    case _ => randType == 4 && deg == 63 && sep == 1
  }

  ghost predicate Recurrence(h: seq<uint32>, deg: nat, sep: nat)
    requires 0 < sep < deg
  {
    forall n :: deg <= n < |h| ==> h[n] == (h[n - deg] + h[n - sep]) % TWO_32
  }

  /** The n-th term of the unbounded recurrence h[n] = h[n - deg] + h[n - sep] mod 2^32. */
  function Term(start: seq<uint32>, sep: nat, n: nat): uint32
    requires 0 < sep < |start|
  {
    if n < |start| then start[n]
    else (Term(start, sep, n - |start|) + Term(start, sep, n - sep)) % TWO_32
  }

  lemma {:induction false} RecurrenceIsTerm(h: seq<uint32>, deg: nat, sep: nat, n: nat)
    requires 0 < sep < deg <= |h| && Recurrence(h, deg, sep) && n < |h|
    ensures h[n] == Term(h[..deg], sep, n)
    decreases n
  {
    if n >= deg {
      RecurrenceIsTerm(h, deg, sep, n - deg);
      RecurrenceIsTerm(h, deg, sep, n - sep);
    }
  }

  /** The low bits alone are a linear feedback shift register of the trinomial x^deg + x^(deg - sep) + 1. */
  lemma LowBitsAreShiftRegister(h: seq<uint32>, deg: nat, sep: nat, n: nat)
    requires 0 < sep < deg <= n < |h| && Recurrence(h, deg, sep)
    ensures h[n] % 2 == 1 <==> (h[n - deg] % 2 == 1) != (h[n - sep] % 2 == 1)
  {
  }

  /** The low bit of the n-th term. */
  predicate LowBit(start: seq<uint32>, sep: nat, n: nat)
    requires 0 < sep < |start|
  {
    Term(start, sep, n) % 2 == 1
  }

  lemma LowBitStep(start: seq<uint32>, sep: nat, n: nat)
    requires 0 < sep < |start|
    ensures LowBit(start, sep, n + |start|) <==> LowBit(start, sep, n) != LowBit(start, sep, n + |start| - sep)
  {
  }

  /** The trinomial raised to a power of two: over bits, the middle terms cancel. */
  lemma {:induction false} Folded(start: seq<uint32>, sep: nat, n: nat, k: nat)
    requires 0 < sep < |start|
    ensures var p, rest := Pow(2, k), |start| - sep;
            LowBit(start, sep, n + |start| * p) <==> LowBit(start, sep, n) != LowBit(start, sep, n + rest * p)
    decreases k
  {
    hide LowBit;
    if k == 0 {
      LowBitStep(start, sep, n);
    } else {
      var a, b := |start| * Pow(2, k - 1), (|start| - sep) * Pow(2, k - 1);
      Folded(start, sep, n, k - 1);
      Folded(start, sep, n + a, k - 1);
      Folded(start, sep, n + b, k - 1);
      assert |start| * Pow(2, k) == 2 * a && (|start| - sep) * Pow(2, k) == 2 * b;
    }
  }

  lemma SmallPowersOf2()
    ensures Pow(2, 0) == 1 && Pow(2, 1) == 2 && Pow(2, 2) == 4 && Pow(2, 3) == 8 && Pow(2, 4) == 16
  {
  }

  lemma FoldedBits(start: seq<uint32>, n: nat, k: nat, p: nat)
    requires |start| == 7 && p == Pow(2, k)
    ensures LowBit(start, 3, n + 7 * p) <==> LowBit(start, 3, n) != LowBit(start, 3, n + 4 * p)
  {
    hide LowBit;
    Folded(start, 3, n, k);
  }

  /** The polynomial of degree seven: 128 steps are one. */
  lemma Steps128(start: seq<uint32>, n: nat)
    requires |start| == 7
    ensures LowBit(start, 3, n + 128) <==> LowBit(start, 3, n + 1)
  {
    hide LowBit;
    SmallPowersOf2();
    FoldedBits(start, n + 1, 0, 1);
    FoldedBits(start, n + 2, 0, 1);
    FoldedBits(start, n + 5, 0, 1);
    FoldedBits(start, n, 1, 2);
    FoldedBits(start, n + 2, 1, 2);
    FoldedBits(start, n + 4, 1, 2);
    FoldedBits(start, n + 6, 1, 2);
    FoldedBits(start, n + 10, 1, 2);
    FoldedBits(start, n, 2, 4);
    FoldedBits(start, n + 4, 2, 4);
    FoldedBits(start, n + 16, 2, 4);
    FoldedBits(start, n + 28, 2, 4);
    FoldedBits(start, n + 24, 3, 8);
    FoldedBits(start, n + 16, 4, 16);
  }

  /** The low bits of the generator of degree seven repeat after 2^7 - 1 steps. */
  lemma Steps127(start: seq<uint32>, n: nat)
    requires |start| == 7
    ensures LowBit(start, 3, n + 127) <==> LowBit(start, 3, n)
  {
    if n > 0 {
      Steps128(start, n - 1);
    } else {
      hide LowBit;
      LowBitStep(start, 3, 0);
      LowBitStep(start, 3, 127);
      Steps128(start, 6);
      Steps128(start, 3);
    }
  }

  /** The low bits from m on are those from m + p on. */
  ghost predicate Repeats(start: seq<uint32>, m: nat, p: nat)
    requires |start| == 7
  {
    forall n :: m <= n ==> LowBit(start, 3, n) == LowBit(start, 3, n + p)
  }

  /** The window of seven low bits at m comes again p steps later. */
  predicate Returns(start: seq<uint32>, m: nat, p: nat)
    requires |start| == 7
  {
    forall n :: m <= n < m + 7 ==> LowBit(start, 3, n) == LowBit(start, 3, n + p)
  }

  predicate IsZero(start: seq<uint32>, m: nat)
    requires |start| == 7
  {
    forall n :: m <= n < m + 7 ==> !LowBit(start, 3, n)
  }

  /** A window of seven low bits that comes again brings all that follows with it. */
  lemma {:induction false} WindowRepeats(start: seq<uint32>, m: nat, p: nat, n: nat)
    requires |start| == 7 && m <= n && Returns(start, m, p)
    ensures LowBit(start, 3, n) == LowBit(start, 3, n + p)
    decreases n
  {
    hide LowBit;
    if n < m + 7 {
      assert LowBit(start, 3, n) == LowBit(start, 3, n + p);
    } else {
      WindowRepeats(start, m, p, n - 7);
      WindowRepeats(start, m, p, n - 3);
      LowBitStep(start, 3, n - 7);
      LowBitStep(start, 3, n + p - 7);
    }
  }

  /** Two periods have a common divisor that is one. */
  lemma {:induction false} CommonPeriod(start: seq<uint32>, m: nat, p: nat, q: nat) returns (g: nat)
    requires |start| == 7 && 0 < p && 0 < q && Repeats(start, m, p) && Repeats(start, m, q)
    ensures 0 < g <= p && Repeats(start, m, g) && p % g == 0 && q % g == 0
    decreases p + q
  {
    hide LowBit;
    if p == q {
      g := p;
    } else {
      var less, more := if p < q then p else q, if p < q then q else p;
      forall n | m <= n ensures LowBit(start, 3, n) == LowBit(start, 3, n + (more - less)) {
        assert LowBit(start, 3, n + (more - less)) == LowBit(start, 3, n + (more - less) + less);
      }
      g := CommonPeriod(start, m, less, more - less);
      SumDivides(less, more - less, g);
    }
  }

  lemma SumDivides(a: nat, b: nat, g: nat)
    requires 0 < g && a % g == 0 && b % g == 0
    ensures (a + b) % g == 0
  {
    var x, y := a / g, b / g;
    assert a == g * x && b == g * y;
    DivUnique(a + b, g, x + y, 0);
  }

  /** 127 is prime. */
  lemma OnlyDivisor(g: nat)
    requires 0 < g < 127 && 127 % g == 0
    ensures g == 1
  {
    var h := 127 / g;
    assert 127 == g * h;
  }

  /** Unless it is zero, a window of seven low bits of the generator of degree seven comes again after 127 steps, the
      full period of its shift register, and not before. */
  lemma PeriodIs127(start: seq<uint32>, m: nat, p: nat)
    requires |start| == 7 && 0 < p <= 127
    ensures Returns(start, m, p)
       <==> p == 127 || IsZero(start, m)
  {
    hide LowBit;
    if p == 127 {
      forall n | m <= n < m + 7 ensures LowBit(start, 3, n) == LowBit(start, 3, n + p) {
        Steps127(start, n);
      }
    } else if Returns(start, m, p) {
      EarlyIsZero(start, m, p);
    } else if IsZero(start, m) {
      forall n | m <= n < m + 7 ensures LowBit(start, 3, n) == LowBit(start, 3, n + p) {
        ZeroStays(start, m, n + p);
      }
    }
  }

  lemma {:induction false} ZeroStays(start: seq<uint32>, m: nat, n: nat)
    requires |start| == 7 && m <= n && IsZero(start, m)
    ensures !LowBit(start, 3, n)
  {
    hide LowBit;
    if n < m + 7 {
      assert !LowBit(start, 3, n);
    } else {
      ZeroStays(start, m, n - 7);
      ZeroStays(start, m, n - 3);
      LowBitStep(start, 3, n - 7);
    }
  }

  lemma EarlyIsZero(start: seq<uint32>, m: nat, p: nat)
    requires |start| == 7 && 0 < p < 127
    requires Returns(start, m, p)
    ensures IsZero(start, m)
  {
    hide LowBit;
    forall n | m <= n ensures LowBit(start, 3, n) == LowBit(start, 3, n + p) {
      WindowRepeats(start, m, p, n);
    }
    forall n | m <= n ensures LowBit(start, 3, n) == LowBit(start, 3, n + 127) {
      Steps127(start, n);
    }
    var g := CommonPeriod(start, m, p, 127);
    OnlyDivisor(g);
    assert Repeats(start, m, 1);
    SameIsZero(start, m);
  }

  lemma SameIsZero(start: seq<uint32>, m: nat)
    requires |start| == 7 && Repeats(start, m, 1)
    ensures IsZero(start, m)
  {
    hide LowBit;
    assert LowBit(start, 3, m) == LowBit(start, 3, m + 1) == LowBit(start, 3, m + 1 + 1);
    assert LowBit(start, 3, m + 2) == LowBit(start, 3, m + 2 + 1) == LowBit(start, 3, m + 3 + 1);
    assert LowBit(start, 3, m + 4) == LowBit(start, 3, m + 4 + 1) == LowBit(start, 3, m + 5 + 1);
    assert LowBit(start, 3, m + 6) == LowBit(start, 3, m + 6 + 1);
    LowBitStep(start, 3, m);
  }

  lemma RecurrenceExtends(h: seq<uint32>, deg: nat, sep: nat, v: uint32)
    requires 0 < sep < deg <= |h| && Recurrence(h, deg, sep)
    requires v == (h[|h| - deg] + h[|h| - sep]) % TWO_32
    ensures Recurrence(h + [v], deg, sep)
  {
  }

  // The circular table

  /** A table read from index `f` on and around. */
  function Around<T>(table: seq<T>, f: nat): (window: seq<T>)
    requires f < |table|
    ensures |window| == |table|
  {
    table[f..] + table[..f]
  }

  function Behind(f: nat, deg: nat, sep: nat): int {
    if f >= sep then f - sep else f + deg - sep
  }

  function Follow(f: nat, length: nat): nat {
    if f + 1 >= length then 0 else f + 1
  }

  lemma AroundAt<T>(table: seq<T>, f: nat, k: nat)
    requires f < |table| && k < |table|
    ensures table[if f + k < |table| then f + k else f + k - |table|] == Around(table, f)[k]
  {
  }

  /** Overwriting the cell under the pointer and advancing it shifts the window by one. */
  lemma AroundShifts<T>(table: seq<T>, f: nat, v: T)
    requires f < |table|
    ensures Around(table[f := v], Follow(f, |table|)) == Around(table, f)[1..] + [v]
  {
    var table' := table[f := v];
    if f + 1 >= |table| {
      assert table'[0..] + table'[..0] == table[..f] + [v];
    } else {
      assert table'[..f + 1] == table[..f] + [v];
    }
  }

  lemma LastShifts<T>(h: seq<T>, length: nat, v: T)
    requires 0 < length <= |h|
    ensures (h + [v])[|h| + 1 - length..] == h[|h| - length..][1..] + [v]
  {
  }

  ghost predicate IsWindow(table: seq<uint32>, f: nat, h: seq<uint32>)
    requires f < |table|
  {
    |table| <= |h| && Around(table, f) == h[|h| - |table|..]
  }

  /** One call of `next` on the table is one more term of the recurrence. */
  lemma TableStep(table: seq<uint32>, f: nat, sep: nat, h: seq<uint32>)
    requires 0 < sep < |table| && f < |table| && IsWindow(table, f, h) && Recurrence(h, |table|, sep)
    ensures var v := (table[f] + table[Behind(f, |table|, sep)]) % TWO_32;
            IsWindow(table[f := v], Follow(f, |table|), h + [v]) && Recurrence(h + [v], |table|, sep)
  {
    hide Around, Recurrence;
    var v: uint32 := (table[f] + table[Behind(f, |table|, sep)]) % TWO_32;
    AroundAt(table, f, 0);
    AroundAt(table, f, |table| - sep);
    RecurrenceExtends(h, |table|, sep, v);
    AroundShifts(table, f, v);
    LastShifts(h, |table|, v);
  }

  /** Testing one pointer is enough: the two never wrap in the same call, and they stay `sep` apart. */
  lemma PointersFollow(f: nat, deg: nat, sep: nat)
    requires 0 < sep < deg && f < deg
    ensures 0 <= Behind(f, deg, sep) < deg
    ensures !(f + 1 == deg && Behind(f, deg, sep) + 1 == deg)
    ensures Behind(Follow(f, deg), deg, sep) == Follow(Behind(f, deg, sep), deg)
  {
  }

  /** The first terms of the recurrence: the seed table, read from where `_fptr` starts. */
  function SeedWindow(x: uint32, deg: nat, sep: nat): (window: seq<uint32>)
    requires sep < deg
  {
    Around(SeedTable(x, deg), sep)
  }

  const NSHUFF := 50

  class Random {
    var state: array<uint32>
    var randType: nat
    var randDeg: nat
    var randSep: nat
    var fptr: nat
    var rptr: nat

    /** Every word the table has held since it was seeded, in the order in which it was computed. */
    ghost var history: seq<uint32>

    ghost predicate Configured()
      reads this
    {
      IsType(randType, randDeg, randSep) && state.Length == if randType == 0 then 1 else randDeg
    }

    /** The pointers are `randSep` apart around the table, and the table, read from `fptr` on and
        around, is the last `randDeg` words of the history. */
    ghost predicate Valid()
      reads this, state
    {
      && Configured()
      && (randType != 0 ==>
            && fptr < randDeg
            && rptr == Behind(fptr, randDeg, randSep)
            && IsWindow(state[..], fptr, history)
            && Recurrence(history, randDeg, randSep))
    }

    /** `next`. With the table: one more term of the recurrence, shifted down by one bit. */
    method Next() returns (i: uint32)
      requires Valid()
      modifies this`fptr, this`rptr, this`history, state
      ensures Valid() && i < 0x8000_0000
      ensures randType == 0 ==> i == GoodRand(ToInt32(old(state[0]))) % 0x8000_0000 == state[0] && history == old(history)
      ensures randType != 0 ==>
                && |history| == old(|history|) + 1 && history[..old(|history|)] == old(history)
                && i == history[old(|history|)] / 2
    {
      hide GoodRand, IsWindow, Recurrence;
      if randType == 0 {
        i := state[0];
        i := GoodRand(ToInt32(i)) % 0x8000_0000;
        state[0] := i;
      } else {
        ghost var table := state[..];
        TableStep(table, fptr, randSep, history);
        PointersFollow(fptr, randDeg, randSep);
        var f, r := fptr, rptr;
        state[f] := (state[f] + state[r]) % TWO_32;
        history := history + [state[f]];
        assert state[..] == table[f := state[f]];
        i := (state[f] / 2) % 0x8000_0000;
        f := f + 1;
        if f >= randDeg {
          f := 0;
          r := r + 1;
        } else {
          r := r + 1;
          if r >= randDeg {
            r := 0;
          }
        }
        fptr := f;
        rptr := r;
      }
    }

    /** `seed(uint32_t)`. */
    method Seed(x: uint32)
      requires Configured()
      modifies this`fptr, this`rptr, this`history, state
      ensures Valid()
      ensures randType != 0 ==> |history| == 11 * randDeg && history[..randDeg] == SeedWindow(x, randDeg, randSep)
      ensures randType == 0 ==> state[0] == SeedWord(x, NSHUFF)
    {
      hide GoodRand, Around;
      state[0] := x;
      var lim: nat;
      if randType == 0 {
        lim := NSHUFF;
      } else {
        var i := 1;
        while i < randDeg
          invariant 1 <= i <= randDeg
          invariant forall j :: 0 <= j < i ==> state[j] == SeedWord(x, j)
        {
          state[i] := GoodRand(ToInt32(state[i - 1]));
          i := i + 1;
        }
        assert state[..] == SeedTable(x, randDeg);
        fptr := randSep;
        rptr := 0;
        lim := 10 * randDeg;
        history := Around(state[..], fptr);
      }
      Cycle(lim);
    }

    /** The loop at the end of `seed`. */
    method Cycle(lim: nat)
      requires Valid()
      modifies this`fptr, this`rptr, this`history, state
      ensures Valid()
      ensures randType == 0 ==> state[0] == SeedWord(old(state[0]), lim)
      ensures randType != 0 ==> |history| == old(|history|) + lim && history[..old(|history|)] == old(history)
    {
      hide GoodRand;
      var i := 0;
      while i < lim
        invariant i <= lim && Valid()
        invariant randType == 0 ==> state[0] == SeedWord(old(state[0]), i)
        invariant randType != 0 ==> |history| == old(|history|) + i && history[..old(|history|)] == old(history)
      {
        GoodRandRange(ToInt32(state[0]));
        var discarded := Next();
        i := i + 1;
      }
    }

    /** `initState`, for a state buffer of `n` bytes. */
    constructor (stateSize: int, seed: uint32)
      requires 8 <= stateSize <= 256
      ensures Valid() && fresh(state)
      ensures (randType, randDeg, randSep)
           == (if stateSize < 32 then (0, 0, 0) else if stateSize < 64 then (1, 7, 3) else if stateSize < 128 then (2, 15, 1)
               else if stateSize < 256 then (3, 31, 3) else (4, 63, 1))
      ensures randType != 0 ==> |history| == 11 * randDeg && history[..randDeg] == SeedWindow(seed, randDeg, randSep)
      ensures randType == 0 ==> state[0] == SeedWord(seed, 50)
    {
      var deg, sep;
      if stateSize < 32 {
        randType, deg, sep := 0, 0, 0;
      } else if stateSize < 64 {
        randType, deg, sep := 1, 7, 3;
      } else if stateSize < 128 {
        randType, deg, sep := 2, 15, 1;
      } else if stateSize < 256 {
        randType, deg, sep := 3, 31, 3;
      } else {
        randType, deg, sep := 4, 63, 1;
      }
      randDeg, randSep := deg, sep;
      state := new uint32[if deg == 0 then 1 else deg];
      new;
      Seed(seed);
    }
  }

  /** The numbers of a generator whose history is known. */
  method Numbers(rnd: Random, k: nat) returns (numbers: seq<uint32>)
    requires rnd.Valid() && (rnd.randType != 0 ==> |rnd.history| >= rnd.randDeg)
    modifies rnd`fptr, rnd`rptr, rnd`history, rnd.state
    ensures rnd.Valid() && |numbers| == k
    ensures rnd.randType == 0 ==> forall j :: 0 <= j < k ==> numbers[j] == SeedWord(old(rnd.state[0]), 1 + j)
    ensures rnd.randType != 0 ==> forall j :: 0 <= j < k ==>
              numbers[j] == Term(old(rnd.history[..rnd.randDeg]), rnd.randSep, old(|rnd.history|) + j) / 2
  {
    hide Term, GoodRand, IsWindow;
    numbers := [];
    ghost var first, length, start := rnd.state[0], |rnd.history|, if rnd.randType == 0 then [] else rnd.history[..rnd.randDeg];
    var j := 0;
    while j < k
      invariant j <= k && |numbers| == j && rnd.Valid()
      invariant rnd.randType == 0 ==> rnd.state[0] == SeedWord(first, j)
      invariant rnd.randType == 0 ==> forall i :: 0 <= i < j ==> numbers[i] == SeedWord(first, 1 + i)
      invariant rnd.randType != 0 ==> |rnd.history| == length + j && rnd.history[..rnd.randDeg] == start
      invariant rnd.randType != 0 ==> forall i :: 0 <= i < j ==> numbers[i] == Term(start, rnd.randSep, length + i) / 2
    {
      GoodRandRange(ToInt32(rnd.state[0]));
      var number := rnd.Next();
      if rnd.randType != 0 {
        RecurrenceIsTerm(rnd.history, rnd.randDeg, rnd.randSep, length + j);
      }
      numbers := numbers + [number];
      j := j + 1;
    }
  }

  /** After seeding, the k-th number drawn is term 11 * deg + k of the recurrence over the rotated seed
      table, without its lowest bit. */
  method Draw(rnd: Random, x: uint32, k: nat) returns (numbers: seq<uint32>)
    requires rnd.Configured() && rnd.randType != 0
    modifies rnd`fptr, rnd`rptr, rnd`history, rnd.state
    ensures rnd.Valid() && |numbers| == k
    ensures forall j :: 0 <= j < k ==>
              numbers[j] == Term(SeedWindow(x, rnd.randDeg, rnd.randSep), rnd.randSep, 11 * rnd.randDeg + j) / 2
  {
    hide Term, SeedWindow;
    rnd.Seed(x);
    numbers := Numbers(rnd, k);
  }

  /** A new generator: the numbers are those of the trinomial for the size of its buffer, from term 11 times its
      degree on. A buffer of less than 32 bytes leaves the linear congruential numbers, without the first fifty. */
  method FirstNumbers(stateSize: int, seed: uint32, k: nat) returns (numbers: seq<uint32>)
    requires 8 <= stateSize <= 256
    ensures |numbers| == k
    ensures stateSize < 32 ==> forall j :: 0 <= j < k ==> numbers[j] == SeedWord(seed, 51 + j)
    ensures 32 <= stateSize < 64 ==> forall j :: 0 <= j < k ==> numbers[j] == Term(SeedWindow(seed, 7, 3), 3, 77 + j) / 2
    ensures 64 <= stateSize < 128 ==> forall j :: 0 <= j < k ==> numbers[j] == Term(SeedWindow(seed, 15, 1), 1, 165 + j) / 2
    ensures 128 <= stateSize < 256 ==> forall j :: 0 <= j < k ==> numbers[j] == Term(SeedWindow(seed, 31, 3), 3, 341 + j) / 2
    ensures stateSize == 256 ==> forall j :: 0 <= j < k ==> numbers[j] == Term(SeedWindow(seed, 63, 1), 1, 693 + j) / 2
  {
    hide Term, SeedWindow, GoodRand;
    var rnd := new Random(stateSize, seed);
    numbers := Numbers(rnd, k);
    if stateSize < 32 {
      forall j | 0 <= j < k ensures numbers[j] == SeedWord(seed, 51 + j) {
        SeedWordOn(seed, 50, 1 + j);
      }
    }
  }

  lemma {:induction false} SeedWordOn(x: uint32, m: nat, n: nat)
    ensures SeedWord(SeedWord(x, m), n) == SeedWord(x, m + n)
  {
    hide GoodRand;
    if n > 0 { SeedWordOn(x, m, n - 1); }
  }
}
