/** STUN attributes (src/stun/src/attributes.cpp): what each class writes, and what `create` and `read` make
    of the bytes. Attributes are values; the hash is an uninterpreted function.
 */
module StunAttributes {
  import opened BitBuffer
  import opened Powers

  type uint16 = x: int | 0 <= x < 0x1_0000
  type uint32 = x: int | 0 <= x < 0x1_0000_0000
  type uint64 = x: int | 0 <= x < 0x1_0000_0000_0000_0000

  const HMAC_SIZE: nat := 20

  type Digest = s: seq<byte> | |s| == 20 witness seq(20, _ => 0)

  /** `crypto::computeHMAC(input, key)`. */
  type Hmac = (seq<byte>, seq<byte>) -> Digest

  const MAGIC_COOKIE: uint32 := 0x2112A442
  const COOKIE_HIGH: uint16 := 0x2112

  datatype Attribute =
    | Address(kind: uint16, ip: uint32, port: uint16)
    | UInt8(kind: uint16, bits8: byte)
    | UInt32(kind: uint16, bits32: uint32)
    | UInt64(kind: uint16, bits64: uint64)
    | Flag(kind: uint16)
    | String(kind: uint16, bytes: seq<byte>)
    | UInt16List(kind: uint16, size: uint16, values: seq<uint16>)
    | ErrorCode(errorClass: byte, number: byte, reason: seq<byte>)
    | Integrity(key: seq<byte>, hmac: seq<byte>, input: seq<byte>)

  function TypeOf(a: Attribute): uint16 {
    match a
    case ErrorCode(_, _, _) => 0x0009
    case Integrity(_, _, _) => 0x0008
    case _ => a.kind
  }

  /** The objects the setters can leave behind: the size field agrees with the contents. */
  predicate WellFormed(a: Attribute) {
    match a
    case String(_, bytes) => |bytes| < 0x1_0000
    case UInt16List(_, size, values) => size == 2 * |values|
    case ErrorCode(_, _, reason) => 4 + |reason| < 0x1_0000
    case Integrity(key, hmac, _) => key != [] || |hmac| == HMAC_SIZE
    case _ => true
  }

  /** `size()`. */
  function SizeOf(a: Attribute): uint16
    requires WellFormed(a)
  {
    match a
    case Address(_, _, _) => 8
    case UInt8(_, _) => 1
    case UInt32(_, _) => 4
    case UInt64(_, _) => 8
    case Flag(_) => 0
    case String(_, bytes) => |bytes|
    case UInt16List(_, size, _) => size
    case ErrorCode(_, _, reason) => 4 + |reason|
    case Integrity(_, _, _) => HMAC_SIZE
  }

  function PaddingOf(size: nat): nat {
    if size % 4 == 0 then 0 else 4 - size % 4
  }

  function Zeroes(n: nat): seq<byte> {
    seq(n, _ => 0)
  }

  /** What `add` counts for an attribute: header, contents and padding. */
  function PaddedSize(size: nat): nat {
    4 + size + PaddingOf(size)
  }

  function XorPort(port: uint16): uint16 {
    PowersOf2();
    XorFits(port, COOKIE_HIGH, 16);
    Xor(port, COOKIE_HIGH)
  }

  function XorIp(ip: uint32): uint32 {
    PowersOf2();
    XorFits(ip, MAGIC_COOKIE, 32);
    Xor(ip, MAGIC_COOKIE)
  }

  function EncodeList(values: seq<uint16>): (bytes: seq<byte>)
    ensures |bytes| == 2 * |values|
  {
    if values == [] then [] else Encode(values[0], 2) + EncodeList(values[1..])
  }

  /** `write`: the bytes of an attribute after its header; `prefix` is the message written before it. */
  function ValueOf(hmac: Hmac, prefix: seq<byte>, a: Attribute): seq<byte>
    requires WellFormed(a)
  {
    match a
    case Address(_, ip, port) => [0, 1] + Encode(XorPort(port), 2) + Encode(XorIp(ip), 4)
    case UInt8(_, bits) => [bits]
    case UInt32(_, bits) => Encode(bits, 4)
    case UInt64(_, bits) => Encode(bits, 8)
    case Flag(_) => []
    case String(_, bytes) => bytes + Zeroes(PaddingOf(|bytes|))
    case UInt16List(_, size, values) => EncodeList(values) + Zeroes(PaddingOf(size))
    case ErrorCode(class_, number, reason) =>
      Encode(class_ * 256 + number, 4) + reason + Zeroes(PaddingOf(4 + |reason|))
    case Integrity(key, digest, _) => if key != [] then hmac(prefix, key) else digest
  }

  function Encoded(hmac: Hmac, prefix: seq<byte>, a: Attribute): seq<byte>
    requires WellFormed(a)
  {
    Encode(TypeOf(a), 2) + Encode(SizeOf(a), 2) + ValueOf(hmac, prefix, a)
  }

  // The bytes themselves

  lemma {:induction false} ListAt(values: seq<uint16>, i: nat)
    requires i < |values|
    ensures EncodeList(values)[2 * i] == values[i] / 256 && EncodeList(values)[2 * i + 1] == values[i] % 256
  {
    if i == 0 {
      TwoBytes(values[0]);
    } else {
      ListAt(values[1..], i - 1);
    }
  }

  lemma TwoBytes(n: uint16)
    ensures Encode(n, 2) == [n / 256, n % 256]
  {
    assert Encode(n / 256, 1) == Encode(n / 256 / 256, 0) + [n / 256 % 256];
  }

  lemma FourBytes(n: uint32)
    ensures Encode(n, 4) == [n / 0x100_0000, n / 0x1_0000 % 256, n / 256 % 256, n % 256]
  {
    TwoBytes(n / 0x1_0000);
    assert Encode(n, 4) == Encode(n / 256, 3) + [n % 256];
    assert Encode(n / 256, 3) == Encode(n / 256 / 256, 2) + [n / 256 % 256];
    assert n / 256 / 256 == n / 0x1_0000;
  }

  /** Port and address are masked with the bytes 21 12 A4 42 of the magic cookie (RFC 5389, section 15.2). */
  lemma AddressLayout(hmac: Hmac, prefix: seq<byte>, kind: uint16, ip: uint32, port: uint16)
    ensures ValueOf(hmac, prefix, Address(kind, ip, port))
         == [0, 1, XorByte(port / 256, 0x21), XorByte(port % 256, 0x12),
             XorByte(ip / 0x100_0000, 0x21), XorByte(ip / 0x1_0000 % 256, 0x12),
             XorByte(ip / 256 % 256, 0xA4), XorByte(ip % 256, 0x42)]
  {
    hide XorPort, XorIp, XorByte, Encode;
    PortBytes(port);
    AddressBytes(ip);
    TwoBytes(XorPort(port));
    FourBytes(XorIp(ip));
  }

  lemma PortBytes(port: uint16)
    ensures XorPort(port) / 256 == XorByte(port / 256, 0x21) && XorPort(port) % 256 == XorByte(port % 256, 0x12)
  {
    hide Xor;
    PowersOf2();
    XorBytes(port, COOKIE_HIGH);
  }

  lemma AddressBytes(ip: uint32)
    ensures var x := XorIp(ip);
      && x / 0x100_0000 == XorByte(ip / 0x100_0000, 0x21) && x / 0x1_0000 % 256 == XorByte(ip / 0x1_0000 % 256, 0x12)
      && x / 256 % 256 == XorByte(ip / 256 % 256, 0xA4) && x % 256 == XorByte(ip % 256, 0x42)
  {
    hide Xor;
    PowersOf2();
    var x: int, n: int := Xor(ip, MAGIC_COOKIE), ip;
    XorBytes(ip, MAGIC_COOKIE);
    XorBytes(ip / 256, 0x2112A4);
    XorBytes(ip / 256 / 256, 0x2112);
    assert n / 256 / 256 == n / 0x1_0000 && n / 0x1_0000 / 256 == n / 0x100_0000;
    assert x / 256 / 256 == x / 0x1_0000 && x / 0x1_0000 / 256 == x / 0x100_0000;
  }

  /** Numbers stand with the highest byte first, class and number of an error in the third and fourth byte, and
      text, lists and reasons are filled up with zeros to a multiple of four. */
  lemma ValueLayout(hmac: Hmac, prefix: seq<byte>, a: Attribute)
    requires WellFormed(a)
    ensures var value := ValueOf(hmac, prefix, a);
      match a
      case Address(_, _, _) => |value| == 8
      case UInt8(_, bits) => value == [bits]
      case UInt32(_, bits) => value == [bits / 0x100_0000, bits / 0x1_0000 % 256, bits / 256 % 256, bits % 256]
      case UInt64(_, bits) =>
        |value| == 8 && forall i :: 0 <= i < 8 ==> value[i] == PlaceOf(bits, 7 - i)
      case Flag(_) => value == []
      case String(_, bytes) => IsPadded(value, bytes)
      case UInt16List(_, _, values) =>
        && |value| % 4 == 0 && 2 * |values| <= |value| <= 2 * |values| + 2
        && (forall i :: 0 <= i < |values| ==> value[2 * i] == values[i] / 256 && value[2 * i + 1] == values[i] % 256)
        && forall i :: 2 * |values| <= i < |value| ==> value[i] == 0
      case ErrorCode(class_, number, reason) => IsPadded(value, [0, 0, class_, number] + reason)
      case Integrity(key, digest, _) => value == if key != [] then hmac(prefix, key) else digest
  {
    hide Encode, XorIp, XorPort, PlaceOf, IsPadded, Zeroes, PaddingOf, EncodeList;
    match a {
      case UInt32(_, bits) => FourBytes(bits);
      case UInt64(_, bits) =>
        forall i | 0 <= i < 8 ensures Encode(bits, 8)[i] == PlaceOf(bits, 7 - i) {
          EncodeAt(bits, 8, i);
        }
      case String(_, bytes) => FilledUp(bytes);
      case UInt16List(_, _, values) => ListLayout(values);
      case ErrorCode(class_, number, reason) =>
        FourBytes(class_ * 256 + number);
        assert [0, 0, class_, number] + reason == Encode(class_ * 256 + number, 4) + reason;
        FilledUp([0, 0, class_, number] + reason);
      case _ =>
    }
  }

  lemma ListLayout(values: seq<uint16>)
    ensures var value := EncodeList(values) + Zeroes(PaddingOf(2 * |values|));
      && |value| % 4 == 0 && 2 * |values| <= |value| <= 2 * |values| + 2
      && (forall i :: 0 <= i < |values| ==> value[2 * i] == values[i] / 256 && value[2 * i + 1] == values[i] % 256)
      && forall i :: 2 * |values| <= i < |value| ==> value[i] == 0
  {
    hide EncodeList, Encode;
    var list, zeros := EncodeList(values), Zeroes(PaddingOf(2 * |values|));
    assert |list + zeros| % 4 == 0;
    forall i | 0 <= i < |values|
      ensures EncodeList(values)[2 * i] == values[i] / 256 && EncodeList(values)[2 * i + 1] == values[i] % 256
    {
      ListAt(values, i);
    }
  }

  lemma FilledUp(contents: seq<byte>)
    ensures IsPadded(contents + Zeroes(PaddingOf(|contents|)), contents)
  {
  }

  predicate IsPadded(value: seq<byte>, contents: seq<byte>) {
    && |value| % 4 == 0 && |contents| <= |value| < |contents| + 4 && value[..|contents|] == contents
    && forall i :: |contents| <= i < |value| ==> value[i] == 0
  }

  /** The mapped address of the sample response of RFC 5769, section 2.2: 192.0.2.1, port 32853. */
  lemma SampleAddress(hmac: Hmac, prefix: seq<byte>)
    ensures Encoded(hmac, prefix, Address(0x0020, 0xC0000201, 32853))
         == [0x00, 0x20, 0x00, 0x08, 0x00, 0x01, 0xa1, 0x47, 0xe1, 0x12, 0xa6, 0x43]
  {
    hide Encode, Xor, XorByte, ValueOf;
    AddressLayout(hmac, prefix, 0x0020, 0xC0000201, 32853);
    TwoBytes(0x0020);
    TwoBytes(8);
    SamplePortHigh();
    SamplePortLow();
    SampleFirst();
    SampleSecond();
    SampleThird();
    SampleFourth();
  }

  lemma SamplePortHigh()
    ensures XorByte(0x80, 0x21) == 0xa1
  {
    hide XorByte, Xor;
    XorOfBits(1, 0, 0, 0, 0, 0, 1, 0);
    XorOfBits(0, 0, 0, 0, 0, 0, 0, 1);
    XorOfDigits(0x80, 0x21);
  }

  lemma SamplePortLow()
    ensures XorByte(0x55, 0x12) == 0x47
  {
    hide XorByte, Xor;
    XorOfBits(0, 1, 0, 1, 0, 0, 0, 1);
    XorOfBits(0, 1, 0, 1, 0, 0, 1, 0);
    XorOfDigits(0x55, 0x12);
  }

  lemma SampleFirst()
    ensures XorByte(0xc0, 0x21) == 0xe1
  {
    hide XorByte, Xor;
    XorOfBits(1, 1, 0, 0, 0, 0, 1, 0);
    XorOfBits(0, 0, 0, 0, 0, 0, 0, 1);
    XorOfDigits(0xc0, 0x21);
  }

  lemma SampleSecond()
    ensures XorByte(0x00, 0x12) == 0x12
  {
    hide XorByte, Xor;
    XorOfBits(0, 0, 0, 0, 0, 0, 0, 1);
    XorOfBits(0, 0, 0, 0, 0, 0, 1, 0);
    XorOfDigits(0x00, 0x12);
  }

  lemma SampleThird()
    ensures XorByte(0x02, 0xa4) == 0xa6
  {
    hide XorByte, Xor;
    XorOfBits(0, 0, 0, 0, 1, 0, 1, 0);
    XorOfBits(0, 0, 1, 0, 0, 1, 0, 0);
    XorOfDigits(0x02, 0xa4);
  }

  lemma SampleFourth()
    ensures XorByte(0x01, 0x42) == 0x43
  {
    hide XorByte, Xor;
    XorOfBits(0, 0, 0, 0, 0, 1, 0, 0);
    XorOfBits(0, 0, 0, 1, 0, 0, 1, 0);
    XorOfDigits(0x01, 0x42);
  }

  /** The attribute a reader of these bytes is meant to end up with: an integrity attribute carries the
      digest that was written and the message before it, and no key. */
  function OnWire(hmac: Hmac, prefix: seq<byte>, a: Attribute): Attribute
    requires WellFormed(a)
  {
    if a.Integrity? then Integrity([], if a.key != [] then hmac(prefix, a.key) else a.hmac, prefix) else a
  }

  // Reading

  datatype Shape =
    | AddressShape | ErrorShape | ListShape | UInt8Shape | UInt32Shape | UInt64Shape
    | FlagShape | StringShape | IntegrityShape

  /** `create`: the class and the type of the object made for a type and a size, if any. An address object
      always has the IPv4 size. A channel number of size 0 becomes an ICE use-candidate flag. */
  function Create(kind: uint16, size: uint16): (made: (bool, Shape, uint16)) {
    if kind in {0x0001, 0x0020, 0x0016, 0x0012, 0x000e} then (size == 8 || size == 20, AddressShape, kind)
    else if kind == 0x0009 then (size >= 4, ErrorShape, kind)
    else if kind == 0x000a then (true, ListShape, kind)
    else if kind in {0x8028, 0x0019, 0x000d, 0x0010, 0x002a, 0x0024} then (size == 4, UInt32Shape, kind)
    else if kind == 0x000c then (size == 0, FlagShape, 0x0025)
    else if kind == 0x0008 then (size == 20, IntegrityShape, kind)
    else if kind in {0x0015, 0x0014, 0x8022, 0x0006, 0x0007} then (size <= 128, StringShape, kind)
    else if kind == 0x0022 then (size == 8, StringShape, kind)
    else if kind == 0x000f then (size == 4, StringShape, kind)
    else if kind == 0x0013 then (true, StringShape, kind)
    else if kind in {0x8029, 0x802A} then (size == 8, UInt64Shape, kind)
    else if kind in {0x0025, 0x001A} then (size == 0, FlagShape, kind)
    else if kind == 0x0018 then (size == 1, UInt8Shape, kind)
    else (false, FlagShape, kind)
  }

  datatype AttributeRead =
    | Got(attribute: Attribute, next: nat)
    | Failed

  /** `read` of an attribute of the given class, type and size, at `pos` of the message `all`. */
  function ReadValue(all: seq<byte>, pos: nat, shape: Shape, kind: uint16, size: uint16): AttributeRead
    requires shape == ErrorShape ==> size >= 4
  {
    match shape
    case AddressShape =>
      if |all| < pos + 4 then Failed
      else if all[pos + 1] != 1 then Got(Address(kind, 0, 0), pos + 4)
      else if |all| < pos + 8 then Failed
      else
        NumberFits(all, pos + 2, 2);
        NumberFits(all, pos + 4, 4);
        Got(Address(kind, XorIp(Decode(all[pos + 4..pos + 8])), XorPort(Decode(all[pos + 2..pos + 4]))), pos + 8)
    case UInt8Shape => if |all| < pos + 1 then Failed else Got(UInt8(kind, all[pos]), pos + 1)
    case UInt32Shape =>
      if |all| < pos + 4 then Failed
      else NumberFits(all, pos, 4); Got(UInt32(kind, Decode(all[pos..pos + 4])), pos + 4)
    case UInt64Shape =>
      if |all| < pos + 8 then Failed
      else NumberFits(all, pos, 8); Got(UInt64(kind, Decode(all[pos..pos + 8])), pos + 8)
    case FlagShape => Got(Flag(kind), pos)
    case StringShape =>
      if |all| < pos + size || |all| < PaddingOf(size) then Failed
      else Got(String(kind, all[pos..pos + size]), pos + size + PaddingOf(size))
    case ListShape =>
      if |all| < PaddingOf(size) then Failed else Got(UInt16List(kind, size, []), pos + PaddingOf(size))
    case ErrorShape =>
      if |all| < pos + size then Failed
      else
        var val := Decode(all[pos..pos + 4]);
        if val / 2048 != 0 || |all| < PaddingOf(size) then Failed
        else Got(ErrorCode(val / 256 % 8, val % 256, all[pos + 4..pos + size]), pos + size + PaddingOf(size))
    case IntegrityShape =>
      if |all| < pos + 20 || pos < 4 then Failed
      else Got(Integrity([], all[pos..pos + 20], all[..pos - 4]), pos + 20)
  }

  lemma NumberFits(all: seq<byte>, pos: nat, width: nat)
    requires pos + width <= |all| && width in {2, 4, 8}
    ensures Decode(all[pos..pos + width]) < (if width == 2 then 0x1_0000 else if width == 4 then 0x1_0000_0000 else 0x1_0000_0000_0000_0000)
  {
    DecodeFits(all[pos..pos + width]);
    PowersOf256();
  }

  lemma PowersOf256()
    ensures Pow(256, 2) == 0x1_0000 && Pow(256, 4) == 0x1_0000_0000 && Pow(256, 8) == 0x1_0000_0000_0000_0000
  {
    assert Pow(256, 4) == 256 * (256 * (256 * (256 * Pow(256, 0))));
    assert Pow(256, 8) == 256 * (256 * (256 * (256 * Pow(256, 4))));
  }

  /** The conditions under which an attribute can be told apart from its bytes at all: `create` makes the
      same class again, an error class fits three bits, and a list is empty because it is never read. */
  predicate Recreated(a: Attribute)
    requires WellFormed(a)
  {
    var (made, shape, kind) := Create(TypeOf(a), SizeOf(a));
    made && kind == TypeOf(a) &&
    match a
    case Address(_, _, _) => shape == AddressShape
    case UInt8(_, _) => shape == UInt8Shape
    case UInt32(_, _) => shape == UInt32Shape
    case UInt64(_, _) => shape == UInt64Shape
    case Flag(_) => shape == FlagShape
    case String(_, _) => shape == StringShape
    case UInt16List(_, _, values) => shape == ListShape && values == []
    case ErrorCode(class_, _, _) => shape == ErrorShape && class_ < 8
    case Integrity(_, _, _) => shape == IntegrityShape
  }

  /** The attributes that can be told apart, class by class: a type of the class, with the size it goes by. */
  predicate IsSupported(a: Attribute) {
    match a
    case Address(kind, _, _) => kind in {0x0001, 0x000e, 0x0012, 0x0016, 0x0020}
    case UInt8(kind, _) => kind == 0x0018
    case UInt32(kind, _) => kind in {0x000d, 0x0010, 0x0019, 0x0024, 0x002a, 0x8028}
    case UInt64(kind, _) => kind in {0x8029, 0x802a}
    case Flag(kind) => kind in {0x001a, 0x0025}
    case String(kind, bytes) =>
      || (kind in {0x0006, 0x0007, 0x0014, 0x0015, 0x8022} && |bytes| <= 128)
      || (kind == 0x000f && |bytes| == 4)
      || (kind == 0x0022 && |bytes| == 8)
      || kind == 0x0013
    case UInt16List(kind, _, values) => kind == 0x000a && values == []
    case ErrorCode(class_, _, _) => class_ <= 7
    case Integrity(_, _, _) => true
  }

  lemma RecreatedIff(a: Attribute)
    requires WellFormed(a)
    ensures Recreated(a) <==> IsSupported(a)
  {
  }

  /** The types and sizes of which `create` makes an object, size by size. */
  predicate IsAccepted(kind: uint16, size: uint16) {
    || kind in {0x000a, 0x0013}
    || (size >= 4 && kind == 0x0009)
    || (size <= 128 && kind in {0x0006, 0x0007, 0x0014, 0x0015, 0x8022})
    || (size == 0 && kind in {0x000c, 0x001a, 0x0025})
    || (size == 1 && kind == 0x0018)
    || (size == 4 && kind in {0x000d, 0x000f, 0x0010, 0x0019, 0x0024, 0x002a, 0x8028})
    || (size == 8 && kind in {0x0001, 0x000e, 0x0012, 0x0016, 0x0020, 0x0022, 0x8029, 0x802a})
    || (size == 20 && kind in {0x0001, 0x0008, 0x000e, 0x0012, 0x0016, 0x0020})
  }

  /** Every other type or size is refused; an accepted one keeps its type, but a channel number becomes an
      ICE use-candidate flag. */
  lemma CreatedIff(kind: uint16, size: uint16)
    ensures Create(kind, size).0 <==> IsAccepted(kind, size)
    ensures Create(kind, size).0 ==> Create(kind, size).2 == if kind == 0x000c then 0x0025 else kind
  {
  }

  /** The attributes that survive: all of those except the eight-bit ones, which are written without the
      padding that `add` counts. */
  predicate Restorable(a: Attribute) {
    IsSupported(a) && !a.UInt8?
  }

  /** A slice of the message that lies inside a value is a slice of the value. */
  lemma Inside(all: seq<byte>, pos: nat, value: seq<byte>, i: nat, j: nat)
    requires i <= j <= |value| && pos + |value| <= |all| && all[pos..pos + |value|] == value
    ensures all[pos + i..pos + j] == value[i..j]
  {
    forall k | i <= k < j ensures all[pos + k] == value[k] {
      assert all[pos + k] == all[pos..pos + |value|][k];
    }
  }

  lemma NumberInside(all: seq<byte>, pos: nat, value: seq<byte>, i: nat, width: nat, n: nat)
    requires i + width <= |value| && pos + |value| <= |all| && all[pos..pos + |value|] == value
    requires width in {2, 4, 8} && value[i..i + width] == Encode(n, width)
    requires n < (if width == 2 then 0x1_0000 else if width == 4 then 0x1_0000_0000 else 0x1_0000_0000_0000_0000)
    ensures Decode(all[pos + i..pos + i + width]) == n
  {
    Inside(all, pos, value, i, i + width);
    PowersOf256();
    DecodeEncode(n, width);
  }

  lemma ReadAddress(all: seq<byte>, pos: nat, kind: uint16, ip: uint32, port: uint16)
    requires pos + 8 <= |all| && all[pos..pos + 8] == [0, 1] + Encode(XorPort(port), 2) + Encode(XorIp(ip), 4)
    ensures ReadValue(all, pos, AddressShape, kind, 8) == Got(Address(kind, ip, port), pos + 8)
  {
    hide XorPort, XorIp, Encode, Decode;
    var value := [0, 1] + Encode(XorPort(port), 2) + Encode(XorIp(ip), 4);
    Inside(all, pos, value, 1, 2);
    assert all[pos + 1] == all[pos + 1..pos + 2][0] == value[1..2][0] == 1;
    NumberInside(all, pos, value, 2, 2, XorPort(port));
    NumberInside(all, pos, value, 4, 4, XorIp(ip));
    XorPortTwice(port);
    XorIpTwice(ip);
  }

  lemma XorPortTwice(port: uint16)
    ensures XorPort(XorPort(port)) == port
  {
    XorTwice(port, COOKIE_HIGH);
  }

  lemma XorIpTwice(ip: uint32)
    ensures XorIp(XorIp(ip)) == ip
  {
    XorTwice(ip, MAGIC_COOKIE);
  }

  lemma ReadError(all: seq<byte>, pos: nat, class_: byte, number: byte, reason: seq<byte>)
    requires 4 + |reason| < 0x1_0000 && class_ < 8
    requires var value := Encode(class_ * 256 + number, 4) + reason + Zeroes(PaddingOf(4 + |reason|));
             pos + |value| <= |all| && all[pos..pos + |value|] == value
    ensures ReadValue(all, pos, ErrorShape, 0x0009, 4 + |reason|)
         == Got(ErrorCode(class_, number, reason), pos + 4 + |reason| + PaddingOf(4 + |reason|))
  {
    hide Encode, Decode;
    var value := Encode(class_ * 256 + number, 4) + reason + Zeroes(PaddingOf(4 + |reason|));
    NumberInside(all, pos, value, 0, 4, class_ * 256 + number);
    Inside(all, pos, value, 4, 4 + |reason|);
    assert value[4..4 + |reason|] == reason;
    ErrorFields(class_, number);
  }

  lemma ErrorFields(class_: byte, number: byte)
    requires class_ < 8
    ensures var val := class_ * 256 + number; val / 2048 == 0 && val / 256 % 8 == class_ && val % 256 == number
  {
  }

  lemma ReadString(all: seq<byte>, pos: nat, kind: uint16, bytes: seq<byte>)
    requires |bytes| < 0x1_0000
    requires var value := bytes + Zeroes(PaddingOf(|bytes|)); pos + |value| <= |all| && all[pos..pos + |value|] == value
    ensures ReadValue(all, pos, StringShape, kind, |bytes|)
         == Got(String(kind, bytes), pos + |bytes| + PaddingOf(|bytes|))
  {
    var value := bytes + Zeroes(PaddingOf(|bytes|));
    Inside(all, pos, value, 0, |bytes|);
  }

  predicate IsFixed(a: Attribute) {
    a.UInt8? || a.UInt32? || a.UInt64? || a.Flag? || a.UInt16List?
  }

  lemma ReadFixed(hmac: Hmac, all: seq<byte>, prefix: seq<byte>, a: Attribute)
    requires WellFormed(a) && Recreated(a) && IsFixed(a)
    requires var pos, value := |prefix| + 4, ValueOf(hmac, prefix, a);
             pos + |value| <= |all| && all[pos..pos + |value|] == value
    ensures ReadValue(all, |prefix| + 4, Create(TypeOf(a), SizeOf(a)).1, TypeOf(a), SizeOf(a))
         == Got(a, |prefix| + 4 + |ValueOf(hmac, prefix, a)|)
  {
    hide Create, Encode, Decode, ReadValue;
    var pos, value := |prefix| + 4, ValueOf(hmac, prefix, a);
    match a
    case UInt32(_, bits) => NumberInside(all, pos, value, 0, 4, bits); ReadSimple(all, pos, a);
    case UInt64(_, bits) => NumberInside(all, pos, value, 0, 8, bits); ReadSimple(all, pos, a);
    case UInt8(_, bits) => assert all[pos] == all[pos..pos + 1][0]; ReadSimple(all, pos, a);
    case Flag(_) => ReadSimple(all, pos, a);
    case UInt16List(_, size, _) => assert size == 0; ReadSimple(all, pos, a);
  }

  /** Every attribute that can be told apart is read back from its value, wherever it stands. */
  lemma ReadWritten(hmac: Hmac, all: seq<byte>, prefix: seq<byte>, a: Attribute, tail: seq<byte>)
    requires WellFormed(a) && Recreated(a)
    requires all == prefix + Encoded(hmac, prefix, a) + tail && |prefix| >= 20
    ensures ReadValue(all, |prefix| + 4, Create(TypeOf(a), SizeOf(a)).1, TypeOf(a), SizeOf(a))
         == Got(OnWire(hmac, prefix, a), |prefix| + |Encoded(hmac, prefix, a)|)
  {
    hide Create, Encode, Decode, XorPort, XorIp, ReadValue, EncodeList;
    var pos, value := |prefix| + 4, ValueOf(hmac, prefix, a);
    assert all == (prefix + Encode(TypeOf(a), 2) + Encode(SizeOf(a), 2)) + value + tail;
    assert all[pos..pos + |value|] == value && all[..pos - 4] == prefix;
    if IsFixed(a) {
      hide ValueOf, Recreated;
      ReadFixed(hmac, all, prefix, a);
    } else {
      match a
      case Address(kind, ip, port) => ReadAddress(all, pos, kind, ip, port);
      case ErrorCode(class_, number, reason) => ReadError(all, pos, class_, number, reason);
      case String(kind, bytes) => ReadString(all, pos, kind, bytes);
      case Integrity(_, _, _) => ReadIntegrity(all, pos, value, prefix);
    }
  }

  lemma ReadIntegrity(all: seq<byte>, pos: nat, value: seq<byte>, prefix: seq<byte>)
    requires 4 <= pos && pos + 20 <= |all| && all[pos..pos + 20] == value && all[..pos - 4] == prefix
    ensures ReadValue(all, pos, IntegrityShape, 0x0008, 20) == Got(Integrity([], value, prefix), pos + 20)
  {
  }

  /** Attributes of fixed form: the number, if any, is already known to be in place. */
  lemma ReadSimple(all: seq<byte>, pos: nat, a: Attribute)
    requires WellFormed(a) && Recreated(a) && IsFixed(a)
    requires pos + SizeOf(a) <= |all|
    requires a.UInt8? ==> all[pos] == a.bits8
    requires a.UInt32? ==> Decode(all[pos..pos + 4]) == a.bits32
    requires a.UInt64? ==> Decode(all[pos..pos + 8]) == a.bits64
    ensures ReadValue(all, pos, Create(TypeOf(a), SizeOf(a)).1, TypeOf(a), SizeOf(a)) == Got(a, pos + SizeOf(a))
  {
    hide Create, Decode;
  }

  /** Nothing that `create` and `read` deliver lies outside the attributes that can be told apart. */
  lemma ReadGivesRecreated(all: seq<byte>, pos: nat, kind: uint16, size: uint16)
    requires Create(kind, size).0
    ensures var (_, shape, kind') := Create(kind, size);
            var read := ReadValue(all, pos, shape, kind', size);
            read.Got? ==> Readable(read.attribute)
  {
    hide Decode, XorPort, XorIp;
  }

  /** What reading can yield: a list comes with the size of its header and no values. */
  predicate Readable(a: Attribute) {
    match a
    case UInt16List(_, _, _) => IsSupported(a)
    case _ => WellFormed(a) && IsSupported(a)
  }

  // The methods of the attribute classes

  /** `MessageIntegrity::write` and `read` both copy the message before the attribute into a buffer of just
      that size and then try to update its length field; no room is left, so the update is refused. */
  method HashInput(message: seq<byte>) returns (input: seq<byte>)
    ensures input == message
  {
    var hmacBuf := new byte[|message|];
    var hmacWriter := new BitWriter(hmacBuf);
    var put := hmacWriter.Put(message);
    var updated := hmacWriter.Update(Encode(|message| + HMAC_SIZE, 4), 2);
    input := hmacWriter.Written();
  }

  method WritePadding(writer: DynamicBitWriter, size: uint16)
    requires writer.Valid()
    modifies writer
    ensures writer.Valid() && writer.Written() == old(writer.Written()) + Zeroes(PaddingOf(size))
  {
    var remainder := size % 4;
    if remainder > 0 {
      writer.Put(Zeroes(4 - remainder));
    }
  }

  method WriteList(writer: DynamicBitWriter, values: seq<uint16>)
    requires writer.Valid()
    modifies writer
    ensures writer.Valid() && writer.Written() == old(writer.Written()) + EncodeList(values)
  {
    var i := 0;
    while i < |values|
      invariant i <= |values| && writer.Valid()
      invariant writer.Written() + EncodeList(values[i..]) == old(writer.Written()) + EncodeList(values)
    {
      writer.Put(Encode(values[i], 2));
      i := i + 1;
    }
  }

  method WriteAddress(writer: DynamicBitWriter, ip: uint32, port: uint16)
    requires writer.Valid()
    modifies writer
    ensures writer.Valid()
    ensures writer.Written() == old(writer.Written()) + ([0, 1] + Encode(XorPort(port), 2) + Encode(XorIp(ip), 4))
  {
    hide Encode, XorPort, XorIp;
    writer.Put([0]);
    writer.Put([1]);
    writer.Put(Encode(XorPort(port), 2));
    writer.Put(Encode(XorIp(ip), 4));
  }

  method WriteError(writer: DynamicBitWriter, class_: byte, number: byte, reason: seq<byte>)
    requires writer.Valid() && 4 + |reason| < 0x1_0000
    modifies writer
    ensures writer.Valid()
    ensures writer.Written() == old(writer.Written())
                              + (Encode(class_ * 256 + number, 4) + reason + Zeroes(PaddingOf(4 + |reason|)))
  {
    hide Encode, Zeroes;
    writer.Put(Encode(class_ * 256 + number, 4));
    writer.Put(reason);
    WritePadding(writer, 4 + |reason|);
  }

  /** `write`, after the header of the attribute. */
  method WriteValue(hmac: Hmac, writer: DynamicBitWriter, a: Attribute)
    requires writer.Valid() && writer.offset == 0 && WellFormed(a) && |writer.Written()| >= 4
    modifies writer
    ensures writer.Valid()
    ensures var written := old(writer.Written());
            writer.Written() == written + ValueOf(hmac, written[..|written| - 4], a)
  {
    hide Encode, XorPort, XorIp, Zeroes, EncodeList;
    match a {
      case Address(_, ip, port) => WriteAddress(writer, ip, port);
      case UInt8(_, bits) => writer.Put([bits]);
      case UInt32(_, bits) => writer.Put(Encode(bits, 4));
      case UInt64(_, bits) => writer.Put(Encode(bits, 8));
      case Flag(_) =>
      case String(_, bytes) =>
        writer.Put(bytes);
        WritePadding(writer, |bytes|);
      case UInt16List(_, size, values) =>
        WriteList(writer, values);
        WritePadding(writer, size);
      case ErrorCode(class_, number, reason) =>
        WriteError(writer, class_, number, reason);
      case Integrity(key, digest, _) =>
        if key != [] {
          var input := HashInput(writer.buffer[..writer.position - 4]);
          assert input == writer.Written()[..|writer.Written()| - 4];
          writer.Put(hmac(input, key));
        } else {
          writer.Put(digest);
        }
    }
  }

  method ConsumePadding(reader: BitReader, size: uint16) returns (ok: bool)
    modifies reader
    ensures ok == (PaddingOf(size) <= reader.limit)
    ensures ok ==> reader.position == old(reader.position) + PaddingOf(size)
  {
    var remainder := size % 4;
    ok := true;
    if remainder > 0 {
      ok := reader.Skip(4 - remainder);
    }
  }

  method ReadAddressValue(reader: BitReader, kind: uint16) returns (ok: bool, a: Attribute)
    requires reader.limit == reader.bytes.Length
    modifies reader
    ensures var read := ReadValue(reader.bytes[..], old(reader.position), AddressShape, kind, 8);
            ok == read.Got? && (ok ==> a == read.attribute && reader.position == read.next)
  {
    a := Address(kind, 0, 0);
    ghost var all, pos := reader.bytes[..], reader.position;
    var dummy, family, port, ip;
    ok, dummy := reader.Get(1);
    if !ok { return; }
    ok, family := reader.Get(1);
    if !ok { return; }
    assert family == [all[pos + 1]];
    ok, port := reader.GetNumber(2);
    if !ok { return; }
    if family[0] == 1 {
      ok, ip := reader.GetNumber(4);
      if !ok { return; }
      assert reader.bytes[pos + 2..pos + 4] == all[pos + 2..pos + 4] && reader.bytes[pos + 4..pos + 8] == all[pos + 4..pos + 8];
      NumberFits(all, pos + 2, 2);
      NumberFits(all, pos + 4, 4);
      a := Address(kind, XorIp(ip), XorPort(port));
    }
  }

  method ReadErrorValue(reader: BitReader, kind: uint16, size: uint16) returns (ok: bool, a: Attribute)
    requires reader.limit == reader.bytes.Length && size >= 4
    modifies reader
    ensures var read := ReadValue(reader.bytes[..], old(reader.position), ErrorShape, kind, size);
            ok == read.Got? && (ok ==> a == read.attribute && reader.position == read.next)
  {
    a := ErrorCode(0, 0, []);
    ghost var all, pos := reader.bytes[..], reader.position;
    var val, reason;
    ok, val := reader.GetNumber(4);
    if !ok { return; }
    assert reader.bytes[pos..pos + 4] == all[pos..pos + 4];
    if val / 2048 != 0 {
      return false, a;
    }
    ok, reason := reader.Get(size - 4);
    if !ok { return; }
    assert reason == all[pos + 4..pos + size];
    a := ErrorCode(val / 256 % 8, val % 256, reason);
    ok := ConsumePadding(reader, size);
  }

  method ReadStringValue(reader: BitReader, kind: uint16, size: uint16) returns (ok: bool, a: Attribute)
    requires reader.limit == reader.bytes.Length
    modifies reader
    ensures var read := ReadValue(reader.bytes[..], old(reader.position), StringShape, kind, size);
            ok == read.Got? && (ok ==> a == read.attribute && reader.position == read.next)
  {
    var bytes;
    ok, bytes := reader.Get(size);
    assert ok ==> bytes == reader.bytes[..][old(reader.position)..old(reader.position) + size];
    a := String(kind, bytes);
    if ok {
      ok := ConsumePadding(reader, size);
    }
  }

  method ReadIntegrityValue(reader: BitReader, kind: uint16) returns (ok: bool, a: Attribute)
    requires reader.limit == reader.bytes.Length
    modifies reader
    ensures var read := ReadValue(reader.bytes[..], old(reader.position), IntegrityShape, kind, 20);
            ok == read.Got? && (ok ==> a == read.attribute && reader.position == read.next)
  {
    var pos := reader.position;
    ok, a := 4 <= pos && pos + HMAC_SIZE <= reader.limit, Integrity([], [], []);
    if ok {
      var input := HashInput(reader.bytes[..pos - 4]);
      a := Integrity([], reader.bytes[pos..pos + HMAC_SIZE], input);
      ok := reader.Skip(HMAC_SIZE);
      assert reader.bytes[pos..pos + 20] == reader.bytes[..][pos..pos + 20];
    }
  }

  /** `read` of the object `create` made. */
  method ReadAttribute(reader: BitReader, shape: Shape, kind: uint16, size: uint16) returns (ok: bool, a: Attribute)
    requires reader.limit == reader.bytes.Length && (shape == ErrorShape ==> size >= 4)
    modifies reader
    ensures var read := ReadValue(reader.bytes[..], old(reader.position), shape, kind, size);
            ok == read.Got? && (ok ==> a == read.attribute && reader.position == read.next)
  {
    ghost var all, pos := reader.bytes[..], reader.position;
    var bits, field;
    ok, a := true, Flag(kind);
    match shape {
      case AddressShape => ok, a := ReadAddressValue(reader, kind);
      case ErrorShape => ok, a := ReadErrorValue(reader, kind, size);
      case StringShape => ok, a := ReadStringValue(reader, kind, size);
      case IntegrityShape => ok, a := ReadIntegrityValue(reader, kind);
      case FlagShape =>
      case ListShape =>
        a := UInt16List(kind, size, []);
        ok := ConsumePadding(reader, size);
      case UInt8Shape =>
        ok, field := reader.Get(1);
        if ok { a := UInt8(kind, field[0]); }
      case UInt32Shape =>
        ok, bits := reader.GetNumber(4);
        if ok {
          assert reader.bytes[pos..pos + 4] == all[pos..pos + 4];
          NumberFits(all, pos, 4);
          a := UInt32(kind, bits);
        }
      case UInt64Shape =>
        ok, bits := reader.GetNumber(8);
        if ok {
          assert reader.bytes[pos..pos + 8] == all[pos..pos + 8];
          NumberFits(all, pos, 8);
          a := UInt64(kind, bits);
        }
    }
  }
}
