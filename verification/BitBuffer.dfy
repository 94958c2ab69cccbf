/** The byte buffers of src/base/src/buffer.cpp, in network byte order. A method that throws
    `std::out_of_range` in the program returns false here and changes nothing.
 */
module BitBuffer {
  import opened CArithmetic
  import opened Powers

  type byte = x: int | 0 <= x < 256

  // Exclusive or, bit by bit from the lowest

  function Xor(a: nat, b: nat): nat
    decreases a + b
  {
    if a == 0 && b == 0 then 0 else (a % 2 + b % 2) % 2 + 2 * Xor(a / 2, b / 2)
  }

  lemma XorBits(a: nat, b: nat)
    ensures Xor(a, b) % 2 == (a % 2 + b % 2) % 2 && Xor(a, b) / 2 == Xor(a / 2, b / 2)
  {
  }

  /** Bit i of a number. */
  function Bit(n: nat, i: nat): nat {
    if i == 0 then n % 2 else Bit(n / 2, i - 1)
  }

  /** A bit of the result is set exactly if the two bits differ. */
  lemma {:induction false} XorIsBitwise(a: nat, b: nat, i: nat)
    ensures Bit(Xor(a, b), i) == if Bit(a, i) == Bit(b, i) then 0 else 1
  {
    XorBits(a, b);
    if i > 0 { XorIsBitwise(a / 2, b / 2, i - 1); }
  }

  /** Masking twice with the same mask gives the original back. */
  lemma {:induction false} XorTwice(a: nat, b: nat)
    ensures Xor(Xor(a, b), b) == a
    decreases a + b
  {
    if a != 0 || b != 0 {
      hide Xor;
      XorTwice(a / 2, b / 2);
      var x := Xor(a, b);
      XorBits(a, b);
      XorBits(x, b);
      assert x / 2 == Xor(a / 2, b / 2);
      ParityTwice(a, b);
      SameHalves(Xor(x, b), a);
    }
  }

  lemma ParityTwice(a: nat, b: nat)
    ensures ((a % 2 + b % 2) % 2 + b % 2) % 2 == a % 2
  {
  }

  lemma SameHalves(x: nat, y: nat)
    requires x / 2 == y / 2 && x % 2 == y % 2
    ensures x == y
  {
  }

  lemma {:induction false} XorFits(a: nat, b: nat, width: nat)
    requires a < Pow(2, width) && b < Pow(2, width)
    ensures Xor(a, b) < Pow(2, width)
    decreases width
  {
    if width > 0 && (a != 0 || b != 0) {
      XorFits(a / 2, b / 2, width - 1);
    }
  }

  function Differ(x: nat, y: nat): nat {
    if x == y then 0 else 1
  }

  lemma XorNext(a: nat, b: nat, high: nat, high': nat, x: nat, y: nat)
    requires a == 2 * high + x && b == 2 * high' + y && x < 2 && y < 2
    ensures Xor(a, b) == 2 * Xor(high, high') + Differ(x, y)
  {
    XorBits(a, b);
    hide Xor;
    assert a / 2 == high && b / 2 == high';
  }

  lemma JoinOne(a: nat, b: nat, x: nat, y: nat, joined: nat, joined': nat)
    requires x < 2 && y < 2 && joined == 2 * a + x && joined' == 2 * b + y
    ensures Xor(joined, joined') == 2 * Xor(a, b) + Xor(x, y)
  {
    assert Xor(0, 0) == 0;
    hide Xor, Differ;
    XorNext(joined, joined', a, b, x, y);
    XorNext(x, y, 0, 0, x, y);
  }

  lemma JoinTwo(a: nat, b: nat, low: nat, low': nat, joined: nat, joined': nat)
    requires low < 4 && low' < 4 && joined == 4 * a + low && joined' == 4 * b + low'
    ensures Xor(joined, joined') == 4 * Xor(a, b) + Xor(low, low')
  {
    hide Xor;
    var h, l, h', l' := low / 2, low % 2, low' / 2, low' % 2;
    JoinOne(a, b, h, h', 2 * a + h, 2 * b + h');
    JoinOne(2 * a + h, 2 * b + h', l, l', joined, joined');
    JoinOne(h, h', l, l', low, low');
  }

  /** The hexadecimal digit at the end is combined on its own. */
  lemma XorJoin(a: nat, b: nat, low: nat, low': nat)
    requires low < 16 && low' < 16
    ensures Xor(a * 16 + low, b * 16 + low') == Xor(a, b) * 16 + Xor(low, low')
  {
    hide Xor;
    var h, l, h', l' := low / 4, low % 4, low' / 4, low' % 4;
    JoinTwo(a, b, h, h', 4 * a + h, 4 * b + h');
    JoinTwo(4 * a + h, 4 * b + h', l, l', a * 16 + low, b * 16 + low');
    JoinTwo(h, h', l, l', low, low');
  }

  lemma XorFitsDigit(a: nat, b: nat)
    requires a < 16 && b < 16
    ensures Xor(a, b) < 16
  {
    assert Pow(2, 4) == 16;
    XorFits(a, b, 4);
  }

  lemma XorDigits(a: nat, b: nat)
    ensures Xor(a, b) / 16 == Xor(a / 16, b / 16) && Xor(a, b) % 16 == Xor(a % 16, b % 16)
  {
    hide Xor;
    XorJoin(a / 16, b / 16, a % 16, b % 16);
    XorFitsDigit(a % 16, b % 16);
  }

  lemma XorBytes(a: nat, b: nat)
    ensures Xor(a, b) / 256 == Xor(a / 256, b / 256) && Xor(a, b) % 256 == Xor(a % 256, b % 256)
  {
    hide Xor;
    XorDigits(a, b);
    XorDigits(a / 16, b / 16);
    XorDigits(a % 256, b % 256);
    ByteParts(a);
    ByteParts(b);
    ByteParts(Xor(a, b));
    ByteParts(Xor(a % 256, b % 256));
    PowersOf2();
    XorFits(a % 256, b % 256, 8);
  }

  lemma ByteParts(n: nat)
    ensures n / 256 == n / 16 / 16 && n % 256 / 16 == n / 16 % 16 && n % 256 % 16 == n % 16 && n % 256 == n / 16 % 16 * 16 + n % 16
  {
  }

  lemma PowersOf2()
    ensures Pow(2, 8) == 256 && Pow(2, 16) == 0x1_0000 && Pow(2, 32) == 0x1_0000_0000
  {
    assert Pow(2, 8) == 256;
    PowAdd(2, 8, 8);
    PowAdd(2, 16, 16);
  }

  function XorByte(a: byte, b: byte): byte {
    PowersOf2();
    XorFits(a, b, 8);
    Xor(a, b)
  }

  /** A hexadecimal digit, bit by bit. */
  lemma XorOfBits(a3: nat, a2: nat, a1: nat, a0: nat, b3: nat, b2: nat, b1: nat, b0: nat)
    requires a3 < 2 && a2 < 2 && a1 < 2 && a0 < 2 && b3 < 2 && b2 < 2 && b1 < 2 && b0 < 2
    ensures Xor(8 * a3 + 4 * a2 + 2 * a1 + a0, 8 * b3 + 4 * b2 + 2 * b1 + b0)
         == 8 * Differ(a3, b3) + 4 * Differ(a2, b2) + 2 * Differ(a1, b1) + Differ(a0, b0)
  {
    assert Xor(0, 0) == 0;
    hide Xor, Differ;
    var a, a', b, b' := 2 * a3 + a2, 4 * a3 + 2 * a2 + a1, 2 * b3 + b2, 4 * b3 + 2 * b2 + b1;
    XorNext(a3, b3, 0, 0, a3, b3);
    XorNext(a, b, a3, b3, a2, b2);
    XorNext(a', b', a, b, a1, b1);
    XorNext(8 * a3 + 4 * a2 + 2 * a1 + a0, 8 * b3 + 4 * b2 + 2 * b1 + b0, a', b', a0, b0);
  }

  /** The exclusive or of two bytes, one hexadecimal digit at a time. */
  lemma XorOfDigits(a: byte, b: byte)
    ensures XorByte(a, b) == 16 * Xor(a / 16, b / 16) + Xor(a % 16, b % 16)
  {
    hide Xor;
    XorJoin(a / 16, b / 16, a % 16, b % 16);
  }

  // Big-endian numbers

  /** The lowest `width` bytes of n, most significant first. */
  function Encode(n: nat, width: nat): (bytes: seq<byte>)
    ensures |bytes| == width
  {
    if width == 0 then [] else Encode(n / 256, width - 1) + [n % 256]
  }

  function Decode(bytes: seq<byte>): nat {
    if bytes == [] then 0 else 256 * Decode(bytes[..|bytes| - 1]) + bytes[|bytes| - 1]
  }

  /** The digit of a number at a place in base 256. */
  function PlaceOf(n: nat, place: nat): byte {
    PowPositive(256, place);
    n / Pow(256, place) % 256
  }

  /** The bytes are the digits in base 256, highest place first. */
  lemma {:induction false} EncodeAt(n: nat, width: nat, i: nat)
    requires i < width
    ensures Encode(n, width)[i] == PlaceOf(n, width - 1 - i)
  {
    PowPositive(256, width - 1 - i);
    if i < width - 1 {
      EncodeAt(n / 256, width - 1, i);
      DivTwice(n, 256, Pow(256, width - 2 - i), Pow(256, width - 1 - i));
    }
  }

  /** Reading back what was written gives the number, when it fits the width. */
  lemma {:induction false} DecodeEncode(n: nat, width: nat)
    requires n < Pow(256, width)
    ensures Decode(Encode(n, width)) == n
  {
    if width > 0 {
      DecodeEncode(n / 256, width - 1);
      assert Encode(n, width)[..width - 1] == Encode(n / 256, width - 1);
    }
  }

  /** Bytes in front count as many times more as there are values of the bytes behind them. */
  lemma {:induction false} DecodeJoin(a: seq<byte>, b: seq<byte>)
    ensures Decode(a + b) == Decode(a) * Pow(256, |b|) + Decode(b)
    decreases |b|
  {
    if b == [] {
      assert a + b == a;
    } else {
      DecodeJoin(a, b[..|b| - 1]);
      assert (a + b)[..|a + b| - 1] == a + b[..|b| - 1];
      OneByteMore(Decode(a), Pow(256, |b| - 1), Decode(b[..|b| - 1]));
    }
  }

  lemma OneByteMore(d: nat, p: nat, e: nat)
    ensures 256 * (d * p + e) == d * (256 * p) + 256 * e
  {
    assert 256 * (d * p) == d * (256 * p);
  }

  lemma {:induction false} DecodeFits(bytes: seq<byte>)
    ensures Decode(bytes) < Pow(256, |bytes|)
  {
    if bytes != [] {
      DecodeFits(bytes[..|bytes| - 1]);
    }
  }

  class BitReader {
    const bytes: array<byte>
    const limit: nat
    var position: nat

    constructor (bytes: array<byte>)
      ensures this.bytes == bytes && limit == bytes.Length && position == 0
    {
      this.bytes := bytes;
      limit := bytes.Length;
      position := 0;
    }

    /** Negative once `skip` has moved past the limit; the program's size_t would wrap around there. */
    function Available(): int
      reads this
    {
      limit - position
    }

    method Seek(val: nat) returns (ok: bool)
      modifies this
      ensures ok == (val <= limit)
      ensures position == if ok then val else old(position)
    {
      ok := val <= limit;
      if ok { position := val; }
    }

    /** Checks the distance against the limit, not the new position. */
    method Skip(val: nat) returns (ok: bool)
      modifies this
      ensures ok == (val <= limit)
      ensures position == if ok then old(position) + val else old(position)
    {
      ok := val <= limit;
      if ok { position := position + val; }
    }

    method Get(len: nat) returns (ok: bool, val: seq<byte>)
      requires limit == bytes.Length
      modifies this
      ensures ok == (len <= old(Available()))
      ensures ok ==> position == old(position) + len && val == bytes[old(position)..old(position) + len]
      ensures !ok ==> val == [] && position == old(position)
    {
      ok := len <= Available();
      if ok {
        val := bytes[position..position + len];
        position := position + len;
      } else {
        val := [];
      }
    }

    /** `getU8`, `getU16`, `getU32` and `getU64`: `width` bytes as a number. */
    method GetNumber(width: nat) returns (ok: bool, val: nat)
      requires limit == bytes.Length
      modifies this
      ensures ok == (width <= old(Available()))
      ensures ok ==> position == old(position) + width && val == Decode(bytes[old(position)..old(position) + width])
      ensures !ok ==> position == old(position)
    {
      var field;
      ok, field := Get(width);
      val := Decode(field);
    }
  }

  /** A writer into a buffer of fixed size. */
  class BitWriter {
    const bytes: array<byte>
    const limit: nat
    var position: nat

    constructor (bytes: array<byte>)
      ensures this.bytes == bytes && limit == bytes.Length && position == 0
    {
      this.bytes := bytes;
      limit := bytes.Length;
      position := 0;
    }

    predicate Valid()
      reads this
    {
      limit == bytes.Length && position <= limit
    }

    function Written(): seq<byte>
      requires Valid()
      reads this, bytes
    {
      bytes[..position]
    }

    method Put(val: seq<byte>) returns (ok: bool)
      requires Valid()
      modifies this, bytes
      ensures Valid() && ok == (old(position) + |val| <= limit)
      ensures Written() == if ok then old(Written()) + val else old(Written())
    {
      ok := position + |val| <= limit;
      if ok {
        forall i | 0 <= i < |val| {
          bytes[position + i] := val[i];
        }
        position := position + |val|;
      }
    }

    /** `update`: overwrites a range, but compares its end with the space left after the position. */
    method Update(val: seq<byte>, pos: nat) returns (done: bool)
      requires Valid()
      modifies bytes
      ensures done == (pos + |val| <= limit - position)
      ensures bytes[..] == if done then old(bytes[..pos]) + val + old(bytes[pos + |val|..]) else old(bytes[..])
    {
      done := pos + |val| <= limit - position;
      if done {
        forall i | 0 <= i < |val| {
          bytes[pos + i] := val[i];
        }
      }
    }
  }

  /** A writer that inserts into a growing buffer, from `offset` on. */
  class DynamicBitWriter {
    var buffer: seq<byte>
    const offset: nat
    var position: nat

    /** What the buffer held when the writer was made. */
    ghost const original: seq<byte>

    constructor (buffer: seq<byte>, offset: nat)
      requires offset <= |buffer|
      ensures this.offset == offset && original == buffer
      ensures Valid() && Written() == []
    {
      this.buffer := buffer;
      this.offset := offset;
      position := 0;
      original := buffer;
    }

    ghost predicate Valid()
      reads this
    {
      && offset <= |original| && |buffer| == |original| + position
      && buffer[..offset] == original[..offset] && buffer[offset + position..] == original[offset..]
    }

    function Written(): seq<byte>
      requires Valid()
      reads this
    {
      buffer[offset..offset + position]
    }

    method Put(val: seq<byte>)
      requires Valid()
      modifies this
      ensures Valid() && Written() == old(Written()) + val
    {
      buffer := buffer[..offset + position] + val + buffer[offset + position..];
      position := position + |val|;
    }
  }
}
