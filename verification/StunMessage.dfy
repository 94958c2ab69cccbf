/** STUN messages (src/stun/src/message.cpp): `add`, `write` and `read`.

    Assertions are those of a build that does not check them. A read past the end of the view, which the
    program does not always refuse, fails here.
 */
module StunMessage {
  import opened BitBuffer
  import opened StunAttributes

  const HEADER_SIZE: nat := 20
  const TRANSACTION_ID_LENGTH: nat := 12

  predicate IsClass(cls: int) {
    cls in {0x000, 0x010, 0x100, 0x110}
  }

  predicate IsValidMethod(method_: int) {
    method_ in {0x1, 0x3, 0x4, 0x6, 0x7, 0x8, 0x9, 0xa, 0xb, 0xc}
  }

  predicate AllWellFormed(attrs: seq<Attribute>) {
    forall i :: 0 <= i < |attrs| ==> WellFormed(attrs[i])
  }

  predicate AllRecreated(attrs: seq<Attribute>)
    requires AllWellFormed(attrs)
  {
    forall i :: 0 <= i < |attrs| ==> Recreated(attrs[i])
  }

  /** The contents of a message, in the order in which the attributes were added. */
  datatype Contents = Contents(cls: uint16, method_: uint16, transactionID: seq<byte>, attrs: seq<Attribute>)

  /** The values the setters and their enumerations allow. */
  predicate IsContents(m: Contents) {
    && IsClass(m.cls) && (IsValidMethod(m.method_) || m.method_ == 0)
    && |m.transactionID| == TRANSACTION_ID_LENGTH && AllWellFormed(m.attrs)
  }

  /** What `add` adds up, before it is cut to sixteen bits. */
  function Total(attrs: seq<Attribute>): nat
    requires AllWellFormed(attrs)
  {
    if attrs == [] then 0 else PaddedSize(SizeOf(attrs[0])) + Total(attrs[1..])
  }

  lemma {:induction false} TotalAdds(attrs: seq<Attribute>, a: Attribute)
    requires AllWellFormed(attrs) && WellFormed(a)
    ensures Total(attrs + [a]) == Total(attrs) + PaddedSize(SizeOf(a))
  {
    if attrs == [] {
      assert attrs + [a] == [a] && [a][1..] == [];
    } else {
      TotalAdds(attrs[1..], a);
      assert (attrs + [a])[1..] == attrs[1..] + [a];
    }
  }

  function Header(m: Contents, size: uint16): (header: seq<byte>)
    requires IsContents(m)
    ensures |header| == HEADER_SIZE
  {
    Encode(m.cls + m.method_, 2) + Encode(size, 2) + Encode(MAGIC_COOKIE, 4) + m.transactionID
  }

  /** The magic cookie is 21 12 A4 42 (RFC 5389, section 6). */
  lemma HeaderLayout(m: Contents, size: uint16)
    requires IsContents(m)
    ensures var kind: int := m.cls + m.method_;
            Header(m, size) == [kind / 256, kind % 256, size / 256, size % 256, 0x21, 0x12, 0xA4, 0x42] + m.transactionID
  {
    hide Encode;
    TwoBytes(m.cls + m.method_);
    TwoBytes(size);
    FourBytes(MAGIC_COOKIE);
  }

  /** The attributes, each written behind everything before it. */
  function AttributeBytes(hmac: Hmac, prefix: seq<byte>, attrs: seq<Attribute>): seq<byte>
    requires AllWellFormed(attrs)
    decreases attrs
  {
    if attrs == [] then []
    else
      var first := Encoded(hmac, prefix, attrs[0]);
      first + AttributeBytes(hmac, prefix + first, attrs[1..])
  }

  function MessageBytes(hmac: Hmac, m: Contents, size: uint16): seq<byte>
    requires IsContents(m)
  {
    Header(m, size) + AttributeBytes(hmac, Header(m, size), m.attrs)
  }

  /** The attributes a reader is meant to end up with. */
  function OnWireAll(hmac: Hmac, prefix: seq<byte>, attrs: seq<Attribute>): (wire: seq<Attribute>)
    requires AllWellFormed(attrs)
    ensures |wire| == |attrs|
    decreases attrs
  {
    if attrs == [] then []
    else [OnWire(hmac, prefix, attrs[0])] + OnWireAll(hmac, prefix + Encoded(hmac, prefix, attrs[0]), attrs[1..])
  }

  // Reading

  datatype AttributesRead = Parsed(attrs: seq<Attribute>, next: nat) | Broken

  /** The attributes read so far before those still to come. */
  function AfterAll(read: seq<Attribute>, others: AttributesRead): AttributesRead {
    if others.Broken? then Broken else Parsed(read + others.attrs, others.next)
  }

  datatype Step = Step(read: seq<Attribute>, next: nat, size: uint16) | Stuck

  /** One turn of the loop of `read`. An attribute that `create` refuses is counted as read, but the reader
      does not move past its value. */
  function ReadStep(all: seq<byte>, pos: nat): Step {
    if |all| < pos + 4 then Stuck
    else
      NumberFits(all, pos, 2);
      NumberFits(all, pos + 2, 2);
      var kind, size := Decode(all[pos..pos + 2]), Decode(all[pos + 2..pos + 4]);
      var (made, shape, kind') := Create(kind, size);
      if !made then Step([], pos + 4, size)
      else
        match ReadValue(all, pos + 4, shape, kind', size)
        case Failed => Stuck
        case Got(a, next) => Step([a], next, size)
  }

  function Pair(all: seq<byte>, pos: nat): uint16
    requires pos + 2 <= |all|
  {
    var high: int, low: int := all[pos], all[pos + 1];
    256 * high + low
  }

  /** A type or a size that is not accepted yields no attribute, and what follows its header is taken for the next
      one. An accepted one yields an attribute of its type, unless the message ends early. */
  lemma StepIff(all: seq<byte>, pos: nat)
    requires pos + 4 <= |all|
    ensures var kind, size := Pair(all, pos), Pair(all, pos + 2);
            var step := ReadStep(all, pos);
            if !IsAccepted(kind, size) then step == Step([], pos + 4, size)
            else step.Stuck? || (|step.read| == 1 && step.size == size
                                 && TypeOf(step.read[0]) == if kind == 0x000c then 0x0025 else kind)
  {
    hide IsAccepted, XorIp, XorPort;
    PairIsNumber(all, pos);
    PairIsNumber(all, pos + 2);
    CreatedIff(Pair(all, pos), Pair(all, pos + 2));
  }

  /** The reader fails on an accepted attribute exactly if the message ends inside its value, or if the upper
      bits of an error are set. Only the first four bytes count for an address that is not IPv4, and none for a
      list. */
  lemma StuckIff(all: seq<byte>, pos: nat)
    requires pos + 4 <= |all| && IsAccepted(Pair(all, pos), Pair(all, pos + 2))
    ensures var kind, size := Pair(all, pos), Pair(all, pos + 2);
            ReadStep(all, pos).Stuck?
            <==> if kind in {0x0001, 0x000e, 0x0012, 0x0016, 0x0020} then
                   |all| < pos + 8 || (all[pos + 5] == 1 && |all| < pos + 12)
                 else if kind == 0x000a then false
                 else
                   |all| < pos + 4 + size
                   || (kind == 0x0009 && (all[pos + 4] > 0 || all[pos + 5] > 0 || all[pos + 6] > 7))
  {
    hide XorIp, XorPort, Decode;
    var kind, size := Pair(all, pos), Pair(all, pos + 2);
    PairIsNumber(all, pos);
    PairIsNumber(all, pos + 2);
    if kind == 0x0009 && pos + 8 <= |all| {
      UpperBits(all, pos + 4);
    }
  }

  function RoundedUp(size: nat): nat {
    (size + 3) / 4 * 4
  }

  /** Where the reader goes on: behind the padding, but behind four bytes of an address that is not IPv4, one byte of an
      eight-bit number, and no byte of a list but as many as its padding would take. Such an address is empty, and so
      is a list. */
  lemma StepGoesOn(all: seq<byte>, pos: nat)
    requires pos + 4 <= |all| && IsAccepted(Pair(all, pos), Pair(all, pos + 2)) && ReadStep(all, pos).Step?
    ensures var kind, size, step := Pair(all, pos), Pair(all, pos + 2), ReadStep(all, pos);
            step.size == size && |step.read| == 1 &&
            if kind in {0x0001, 0x000e, 0x0012, 0x0016, 0x0020} then
              if |all| > pos + 5 && all[pos + 5] == 1 then step.next == pos + 12
              else step.next == pos + 8 && step.read[0] == Address(kind, 0, 0)
            else if kind == 0x0018 then step.next == pos + 5
            else if kind == 0x000a then step.next == pos + 4 + RoundedUp(size) - size && step.read[0] == UInt16List(kind, size, [])
            else step.next == pos + 4 + RoundedUp(size)
  {
    hide XorIp, XorPort, Decode;
    PairIsNumber(all, pos);
    PairIsNumber(all, pos + 2);
    PaddingRoundsUp(Pair(all, pos + 2));
  }

  lemma PaddingRoundsUp(size: nat)
    ensures size + PaddingOf(size) == RoundedUp(size)
  {
  }

  lemma UpperBits(all: seq<byte>, pos: nat)
    requires pos + 4 <= |all|
    ensures Decode(all[pos..pos + 4]) / 2048 != 0 <==> all[pos] > 0 || all[pos + 1] > 0 || all[pos + 2] > 7
  {
    var bytes := all[pos..pos + 4];
    PairIsNumber(all, pos);
    assert bytes[..3][..2] == all[pos..pos + 2];
    assert Decode(bytes[..3]) == 256 * Pair(all, pos) + all[pos + 2];
    var high: int, low: int := all[pos], all[pos + 1];
    assert Decode(bytes) == 256 * (256 * (256 * high + low) + all[pos + 2]) + all[pos + 3];
  }

  lemma PairIsNumber(all: seq<byte>, pos: nat)
    requires pos + 2 <= |all|
    ensures Decode(all[pos..pos + 2]) == Pair(all, pos)
  {
    var bytes := all[pos..pos + 2];
    assert Decode(bytes[..1]) == bytes[0] by { assert bytes[..1][..0] == []; }
  }

  function ReadAttributes(all: seq<byte>, pos: nat, rest: int): AttributesRead
    decreases rest
  {
    if rest <= 0 then Parsed([], pos)
    else
      match ReadStep(all, pos)
      case Stuck => Broken
      case Step(read, next, size) => AfterAll(read, ReadAttributes(all, next, rest - PaddedSize(size)))
  }

  datatype MessageRead = Read(contents: Contents, size: uint16, position: nat) | Rejected

  function ReadMessage(all: seq<byte>): MessageRead {
    if |all| < 4 then Rejected
    else
      NumberFits(all, 0, 2);
      NumberFits(all, 2, 2);
      var kind, size := Decode(all[0..2]), Decode(all[2..4]);
      var cls, method_ := kind / 256 % 2 * 256 + kind / 16 % 2 * 16, kind % 16;
      if kind >= 0x8000 || !IsValidMethod(method_) || size > |all| || |all| < HEADER_SIZE then Rejected
      else
        match ReadAttributes(all, HEADER_SIZE, size)
        case Broken => Rejected
        case Parsed(attrs, next) => Read(Contents(cls, method_, all[8..20], attrs), size, next)
  }

  /** What the bytes of the header decide: the class is bits 0 of the first and 4 of the second byte, the method is
      the four bits below. */
  lemma HeaderDecides(all: seq<byte>)
    ensures ReadMessage(all).Read?
       <==> |all| >= HEADER_SIZE && all[0] < 0x80 && all[1] % 16 in {1, 3, 4, 6, 7, 8, 9, 10, 11, 12}
            && Pair(all, 2) <= |all| && ReadAttributes(all, HEADER_SIZE, Pair(all, 2)).Parsed?
    ensures var read := ReadMessage(all);
            read.Read? ==>
              && read.contents.cls == (if all[0] % 2 == 1 then 0x100 else 0) + (if all[1] / 16 % 2 == 1 then 0x10 else 0)
              && read.contents.method_ == all[1] % 16 && read.contents.transactionID == all[8..20] && read.size == Pair(all, 2)
  {
    hide ReadAttributes, Decode;
    if |all| >= 4 {
      PairIsNumber(all, 0);
      PairIsNumber(all, 2);
      hide Pair;
      FieldsOfKind(all);
      assert Pair(all, 0) == Decode(all[0..2]);
    }
  }

  lemma FieldsOfKind(all: seq<byte>)
    requires |all| >= 2
    ensures var kind := Pair(all, 0);
      && (kind >= 0x8000 <==> all[0] >= 0x80) && kind % 16 == all[1] % 16
      && kind / 256 % 2 * 256 == (if all[0] % 2 == 1 then 0x100 else 0)
      && kind / 16 % 2 * 16 == (if all[1] / 16 % 2 == 1 then 0x10 else 0)
  {
    var high: int, low: int := all[0], all[1];
    assert (256 * high + low) / 256 == high && (256 * high + low) / 16 == 16 * high + low / 16;
    assert (256 * high + low) % 16 == low % 16;
  }

  // What a message holds after `read`, also if it fails

  /** The attributes the loop has read when it ends or fails. */
  function AttributesBefore(all: seq<byte>, pos: nat, rest: int): seq<Attribute>
    decreases rest
  {
    if rest <= 0 then []
    else
      match ReadStep(all, pos)
      case Stuck => []
      case Step(read, next, size) => read + AttributesBefore(all, next, rest - PaddedSize(size))
  }

  datatype Fields = Fields(contents: Contents, size: uint16)

  /** Class and method are set once they are known to be good, the size as soon as it is read, and the rest
      only after the header. */
  function AfterRead(before: Fields, all: seq<byte>): Fields {
    if |all| < 2 then before
    else
      NumberFits(all, 0, 2);
      var kind := Decode(all[0..2]);
      var cls, method_ := kind / 256 % 2 * 256 + kind / 16 % 2 * 16, kind % 16;
      var named := before.(contents := before.contents.(cls := cls, method_ := method_));
      if kind >= 0x8000 || !IsValidMethod(method_) then before
      else if |all| < 4 then named
      else
        NumberFits(all, 2, 2);
        var size := Decode(all[2..4]);
        if size > |all| || |all| < HEADER_SIZE then named.(size := size)
        else Fields(Contents(cls, method_, all[8..20], AttributesBefore(all, HEADER_SIZE, size)), size)
  }

  lemma {:induction false} ReadToTheEnd(all: seq<byte>, pos: nat, rest: int)
    ensures var read := ReadAttributes(all, pos, rest); read.Parsed? ==> read.attrs == AttributesBefore(all, pos, rest)
    decreases rest
  {
    if rest > 0 {
      hide ReadStep, PaddedSize;
      var step := ReadStep(all, pos);
      if step.Step? {
        ReadToTheEnd(all, step.next, rest - PaddedSize(step.size));
      }
    }
  }

  /** A read that succeeds leaves what it says it read, whatever the message held before. */
  lemma AfterSuccess(before: Fields, all: seq<byte>)
    ensures var read := ReadMessage(all); read.Read? ==> AfterRead(before, all) == Fields(read.contents, read.size)
  {
    hide Decode, ReadAttributes, AttributesBefore, IsValidMethod;
    if |all| >= 4 {
      NumberFits(all, 2, 2);
      ReadToTheEnd(all, HEADER_SIZE, Decode(all[2..4]));
    }
  }

  /** What a message holds after any read, failed or not: nothing is new if class and method are not good, the size is
      set without being checked, and the rest only changes if the header is complete and the size fits. */
  lemma AfterReadDecides(before: Fields, all: seq<byte>)
    ensures var after := AfterRead(before, all);
      if |all| < 2 || all[0] >= 0x80 || all[1] % 16 !in {1, 3, 4, 6, 7, 8, 9, 10, 11, 12} then after == before
      else
        var size := if |all| < 4 then before.size else Pair(all, 2);
        && after.contents.cls == (if all[0] % 2 == 1 then 0x100 else 0) + (if all[1] / 16 % 2 == 1 then 0x10 else 0)
        && after.contents.method_ == all[1] % 16 && after.size == size
        && if |all| < HEADER_SIZE || size > |all| then
             after.contents.transactionID == before.contents.transactionID && after.contents.attrs == before.contents.attrs
           else
             after.contents.transactionID == all[8..20] && after.contents.attrs == AttributesBefore(all, HEADER_SIZE, size)
  {
    hide AttributesBefore, Decode;
    if |all| >= 2 {
      PairIsNumber(all, 0);
      FieldsOfKind(all);
      if |all| >= 4 {
        PairIsNumber(all, 2);
      }
      hide Pair;
    }
  }

  /** Attributes before one that cannot be read are kept. */
  lemma {:induction false} AttributesKept(hmac: Hmac, all: seq<byte>, prefix: seq<byte>, attrs: seq<Attribute>, tail: seq<byte>,
                                          rest: int)
    requires AllWellFormed(attrs) && AllRestorable(attrs) && |prefix| >= HEADER_SIZE && Total(attrs) < rest
    requires all == prefix + AttributeBytes(hmac, prefix, attrs) + tail
    requires ReadStep(all, |prefix| + |AttributeBytes(hmac, prefix, attrs)|).Stuck?
    ensures AttributesBefore(all, |prefix|, rest) == OnWireAll(hmac, prefix, attrs)
    decreases |attrs|
  {
    hide Recreated, IsSupported, Encoded, OnWire, PaddedSize, AttributeBytes, OnWireAll, WellFormed, SizeOf, ReadStep;
    if attrs == [] {
      ReadNone(hmac, all, prefix, 0);
    } else {
      var first, others := Encoded(hmac, prefix, attrs[0]), attrs[1..];
      WriteFirst(hmac, prefix, attrs);
      var behind := AttributeBytes(hmac, prefix + first, others);
      Regroup(all, prefix, first, behind, tail);
      RecreatedIff(attrs[0]);
      StepReadsFirst(hmac, all, prefix, attrs[0], behind + tail);
      AttributesKept(hmac, all, prefix + first, others, tail, rest - PaddedSize(SizeOf(attrs[0])));
    }
  }

  lemma StepReadsFirst(hmac: Hmac, all: seq<byte>, prefix: seq<byte>, a: Attribute, tail: seq<byte>)
    requires WellFormed(a) && Recreated(a) && |prefix| >= HEADER_SIZE
    requires all == prefix + Encoded(hmac, prefix, a) + tail
    ensures ReadStep(all, |prefix|) == Step([OnWire(hmac, prefix, a)], |prefix| + |Encoded(hmac, prefix, a)|, SizeOf(a))
  {
    hide Create, Encode, Decode, ReadValue, OnWire, ValueOf;
    var head := Encode(TypeOf(a), 2) + Encode(SizeOf(a), 2);
    assert all == prefix + head + (ValueOf(hmac, prefix, a) + tail);
    assert all[|prefix|..|prefix| + |head|] == head;
    NumberInside(all, |prefix|, head, 0, 2, TypeOf(a));
    NumberInside(all, |prefix|, head, 2, 2, SizeOf(a));
    ReadWritten(hmac, all, prefix, a, tail);
  }

  /** How many attributes the loop reads when it starts with `rest` bytes to go. */
  function Taken(attrs: seq<Attribute>, rest: int): (k: nat)
    requires AllWellFormed(attrs)
    ensures k <= |attrs|
  {
    if attrs == [] || rest <= 0 then 0 else 1 + Taken(attrs[1..], rest - PaddedSize(SizeOf(attrs[0])))
  }

  lemma ReadFirst(hmac: Hmac, all: seq<byte>, prefix: seq<byte>, a: Attribute, tail: seq<byte>, rest: int)
    requires WellFormed(a) && Recreated(a) && |prefix| >= HEADER_SIZE && rest > 0
    requires all == prefix + Encoded(hmac, prefix, a) + tail
    ensures var next := |prefix| + |Encoded(hmac, prefix, a)|;
            var others := ReadAttributes(all, next, rest - PaddedSize(SizeOf(a)));
            ReadAttributes(all, |prefix|, rest)
            == if others.Broken? then Broken else Parsed([OnWire(hmac, prefix, a)] + others.attrs, others.next)
  {
    hide ReadStep, Encoded, OnWire;
    StepReadsFirst(hmac, all, prefix, a, tail);
  }

  /** Writing one attribute more at the front. */
  lemma WriteFirst(hmac: Hmac, prefix: seq<byte>, attrs: seq<Attribute>)
    requires AllWellFormed(attrs) && attrs != []
    ensures var first, others := Encoded(hmac, prefix, attrs[0]), attrs[1..];
            && AttributeBytes(hmac, prefix, attrs) == first + AttributeBytes(hmac, prefix + first, others)
            && OnWireAll(hmac, prefix, attrs)
               == [OnWire(hmac, prefix, attrs[0])] + OnWireAll(hmac, prefix + first, others)
  {
    hide Encoded, OnWire;
  }

  lemma Regroup(all: seq<byte>, prefix: seq<byte>, first: seq<byte>, others: seq<byte>, tail: seq<byte>)
    requires all == prefix + (first + others) + tail
    ensures all == prefix + first + (others + tail) && all == (prefix + first) + others + tail
  {
  }

  lemma TakeFirst(attrs: seq<Attribute>, n: nat)
    requires n < |attrs|
    ensures attrs[..n + 1][0] == attrs[0] && attrs[..n + 1][1..] == attrs[1..][..n]
  {
  }

  /** One turn of the loop, given what the others yield. */
  lemma ReadOneMore(hmac: Hmac, all: seq<byte>, prefix: seq<byte>, attrs: seq<Attribute>, tail: seq<byte>, rest: int, n: nat)
    requires attrs != [] && AllWellFormed(attrs) && Recreated(attrs[0]) && |prefix| >= HEADER_SIZE
    requires all == prefix + AttributeBytes(hmac, prefix, attrs) + tail && 0 < rest && n < |attrs|
    requires var behind, others := prefix + Encoded(hmac, prefix, attrs[0]), attrs[1..][..n];
             ReadAttributes(all, |behind|, rest - PaddedSize(SizeOf(attrs[0])))
             == Parsed(OnWireAll(hmac, behind, others), |behind| + |AttributeBytes(hmac, behind, others)|)
    ensures ReadAttributes(all, |prefix|, rest)
         == Parsed(OnWireAll(hmac, prefix, attrs[..n + 1]), |prefix| + |AttributeBytes(hmac, prefix, attrs[..n + 1])|)
  {
    hide Recreated, ReadAttributes, Encoded, OnWire, PaddedSize, AttributeBytes, OnWireAll, WellFormed, SizeOf;
    var first := Encoded(hmac, prefix, attrs[0]);
    TakeFirst(attrs, n);
    WriteFirst(hmac, prefix, attrs);
    WriteFirst(hmac, prefix, attrs[..n + 1]);
    var others := AttributeBytes(hmac, prefix + first, attrs[1..]);
    Regroup(all, prefix, first, others, tail);
    ReadFirst(hmac, all, prefix, attrs[0], others + tail, rest);
  }

  lemma ReadNone(hmac: Hmac, all: seq<byte>, prefix: seq<byte>, rest: int)
    requires rest <= 0
    ensures ReadAttributes(all, |prefix|, rest) == Parsed(OnWireAll(hmac, prefix, []), |prefix| + |AttributeBytes(hmac, prefix, [])|)
  {
  }

  /** The reader stays in step with the writer, attribute by attribute. */
  lemma {:induction false} ReadEncoded(hmac: Hmac, all: seq<byte>, prefix: seq<byte>, attrs: seq<Attribute>,
                                       tail: seq<byte>, rest: int)
    requires AllWellFormed(attrs) && AllRecreated(attrs) && |prefix| >= HEADER_SIZE
    requires all == prefix + AttributeBytes(hmac, prefix, attrs) + tail && rest <= Total(attrs)
    ensures var taken := attrs[..Taken(attrs, rest)];
            ReadAttributes(all, |prefix|, rest)
            == Parsed(OnWireAll(hmac, prefix, taken), |prefix| + |AttributeBytes(hmac, prefix, taken)|)
    decreases |attrs|
  {
    hide Recreated, ReadAttributes, Encoded, OnWire, PaddedSize, AttributeBytes, OnWireAll, WellFormed, SizeOf;
    if attrs == [] || rest <= 0 {
      assert attrs[..0] == [];
      ReadNone(hmac, all, prefix, rest);
    } else {
      var first, others := Encoded(hmac, prefix, attrs[0]), attrs[1..];
      var after := rest - PaddedSize(SizeOf(attrs[0]));
      WriteFirst(hmac, prefix, attrs);
      Regroup(all, prefix, first, AttributeBytes(hmac, prefix + first, others), tail);
      ReadEncoded(hmac, all, prefix + first, others, tail, after);
      ReadOneMore(hmac, all, prefix, attrs, tail, rest, Taken(others, after));
    }
  }

  // What survives

  predicate AllRestorable(attrs: seq<Attribute>) {
    forall i :: 0 <= i < |attrs| ==> Restorable(attrs[i])
  }

  /** The number of eight-bit attributes. */
  function Eights(attrs: seq<Attribute>): nat {
    if attrs == [] then 0 else (if attrs[0].UInt8? then 1 else 0) + Eights(attrs[1..])
  }

  lemma EncodedLength(hmac: Hmac, prefix: seq<byte>, a: Attribute)
    requires WellFormed(a)
    ensures |Encoded(hmac, prefix, a)| == PaddedSize(SizeOf(a)) - (if a.UInt8? then 3 else 0)
  {
  }

  /** `_size` is the number of bytes behind the header, but for the padding that eight-bit attributes lack. */
  lemma {:induction false} AttributesLength(hmac: Hmac, prefix: seq<byte>, attrs: seq<Attribute>)
    requires AllWellFormed(attrs)
    ensures |AttributeBytes(hmac, prefix, attrs)| == Total(attrs) - 3 * Eights(attrs)
    ensures 8 * Eights(attrs) <= Total(attrs)
    decreases |attrs|
  {
    if attrs != [] {
      hide Encoded;
      var first := Encoded(hmac, prefix, attrs[0]);
      EncodedLength(hmac, prefix, attrs[0]);
      AttributesLength(hmac, prefix + first, attrs[1..]);
    }
  }

  lemma {:induction false} NoEights(attrs: seq<Attribute>)
    requires AllWellFormed(attrs)
    ensures AllRestorable(attrs) <==> AllRecreated(attrs) && Eights(attrs) == 0
  {
    if attrs != [] {
      hide WellFormed, Recreated, IsSupported;
      NoEights(attrs[1..]);
      RecreatedIff(attrs[0]);
      assert forall i :: 0 < i < |attrs| ==> attrs[i] == attrs[1..][i - 1];
    }
  }

  lemma {:induction false} AllTaken(attrs: seq<Attribute>)
    requires AllWellFormed(attrs)
    ensures Taken(attrs, Total(attrs)) == |attrs|
  {
    if attrs != [] { AllTaken(attrs[1..]); }
  }

  lemma ClassAndMethod(cls: uint16, method_: uint16)
    requires IsClass(cls) && (IsValidMethod(method_) || method_ == 0)
    ensures var kind := cls + method_; kind < 0x8000 && kind / 256 % 2 * 256 + kind / 16 % 2 * 16 == cls && kind % 16 == method_
  {
  }

  /** The reader finds the fields of the header where the writer put them. */
  lemma ReadHeader(m: Contents, size: uint16, behind: seq<byte>)
    requires IsContents(m)
    ensures var all := Header(m, size) + behind;
            Decode(all[0..2]) == m.cls + m.method_ && Decode(all[2..4]) == size && all[8..20] == m.transactionID
  {
    hide Encode, Decode;
    var all := Header(m, size) + behind;
    var kind: uint16 := m.cls + m.method_;
    var cookie := Encode(MAGIC_COOKIE, 4);
    assert all[0..0 + 20] == Header(m, size);
    assert Header(m, size)[0..2] == Encode(kind, 2) && Header(m, size)[2..4] == Encode(size, 2);
    NumberInside(all, 0, Header(m, size), 0, 2, kind);
    NumberInside(all, 0, Header(m, size), 2, 2, size);
    Inside(all, 0, Header(m, size), 8, 20);
    assert Encode(kind, 2) + Encode(size, 2) + cookie + m.transactionID
        == (Encode(kind, 2) + Encode(size, 2) + cookie) + m.transactionID;
  }

  lemma ReadWhole(m: Contents, size: uint16, behind: seq<byte>)
    requires IsContents(m)
    ensures var all := Header(m, size) + behind;
            var read := ReadAttributes(all, HEADER_SIZE, size);
            ReadMessage(all)
            == if !IsValidMethod(m.method_) || size > |all| || read.Broken? then Rejected
               else Read(Contents(m.cls, m.method_, m.transactionID, read.attrs), size, read.next)
  {
    hide Header, Decode, ReadAttributes, IsClass, IsValidMethod;
    ReadHeader(m, size, behind);
    ClassAndMethod(m.cls, m.method_);
  }

  /** What a reader should make of a written message. */
  ghost predicate Restores(hmac: Hmac, m: Contents, size: uint16, tail: seq<byte>)
    requires IsContents(m)
  {
    ReadMessage(MessageBytes(hmac, m, size) + tail)
    == Read(m.(attrs := OnWireAll(hmac, Header(m, size), m.attrs)), size, HEADER_SIZE + size)
  }

  /** A message that fits and whose attributes can be restored is restored, whatever follows it. */
  lemma RoundTrip(hmac: Hmac, m: Contents, tail: seq<byte>)
    requires IsContents(m) && IsValidMethod(m.method_)
    requires Total(m.attrs) < 0x1_0000 && AllRestorable(m.attrs)
    ensures Restores(hmac, m, Total(m.attrs), tail)
  {
    hide ReadMessage, Header, AttributeBytes, OnWireAll, ReadAttributes, IsClass, IsValidMethod, Total, Taken, WellFormed, Recreated;
    var size: uint16 := Total(m.attrs);
    var header := Header(m, size);
    var attributes := AttributeBytes(hmac, header, m.attrs);
    var all := MessageBytes(hmac, m, size) + tail;
    assert all == header + (attributes + tail) && all == header + attributes + tail;
    ReadWhole(m, size, attributes + tail);
    AttributesLength(hmac, header, m.attrs);
    NoEights(m.attrs);
    AllTaken(m.attrs);
    ReadEncoded(hmac, all, header, m.attrs, tail, size);
    assert m.attrs[..|m.attrs|] == m.attrs;
  }

  /** An attribute is written behind the header and the attributes before it. */
  lemma {:induction false} WrittenAt(hmac: Hmac, prefix: seq<byte>, attrs: seq<Attribute>, i: nat)
    requires AllWellFormed(attrs) && i < |attrs|
    ensures var before := AttributeBytes(hmac, prefix, attrs[..i]);
            && OnWireAll(hmac, prefix, attrs)[i] == OnWire(hmac, prefix + before, attrs[i])
            && before <= AttributeBytes(hmac, prefix, attrs)
    decreases |attrs|
  {
    hide Encoded, OnWire, OnWireAll, AttributeBytes, WellFormed;
    var first, others := Encoded(hmac, prefix, attrs[0]), attrs[1..];
    WriteFirst(hmac, prefix, attrs);
    if i == 0 {
      assert attrs[..0] == [];
      ReadNone(hmac, [], prefix, 0);
      assert prefix + [] == prefix;
      NothingWritten(hmac, prefix);
    } else {
      WrittenAt(hmac, prefix + first, others, i - 1);
      TakeFirst(attrs, i - 1);
      WriteFirst(hmac, prefix, attrs[..i]);
      var before := AttributeBytes(hmac, prefix + first, others[..i - 1]);
      assert prefix + (first + before) == (prefix + first) + before;
    }
  }

  lemma NothingWritten(hmac: Hmac, prefix: seq<byte>)
    ensures AttributeBytes(hmac, prefix, []) == []
  {
  }

  lemma OnWireReadable(hmac: Hmac, prefix: seq<byte>, a: Attribute)
    requires WellFormed(a) && Readable(OnWire(hmac, prefix, a))
    ensures Recreated(a)
  {
    RecreatedIff(a);
  }

  predicate AllReadable(attrs: seq<Attribute>) {
    forall i :: 0 <= i < |attrs| ==> Readable(attrs[i])
  }

  lemma AllReadableAdds(a: seq<Attribute>, b: seq<Attribute>)
    requires AllReadable(a) && AllReadable(b)
    ensures AllReadable(a + b)
  {
    hide Readable;
  }

  lemma StepReadable(all: seq<byte>, pos: nat)
    ensures var step := ReadStep(all, pos); step.Step? ==> AllReadable(step.read)
  {
    if pos + 4 <= |all| {
      hide Create, ReadValue, Decode, Readable;
      NumberFits(all, pos, 2);
      NumberFits(all, pos + 2, 2);
      var kind, size: uint16 := Decode(all[pos..pos + 2]), Decode(all[pos + 2..pos + 4]);
      CreatedSize(kind, size);
      if Create(kind, size).0 {
        ReadGivesRecreated(all, pos + 4, kind, size);
      }
    }
  }

  lemma {:induction false} ReadAttributesReadable(all: seq<byte>, pos: nat, rest: int)
    ensures var read := ReadAttributes(all, pos, rest);
            read.Parsed? ==> AllReadable(read.attrs)
    decreases rest
  {
    if rest > 0 {
      hide ReadStep, AllReadable, PaddedSize;
      StepReadable(all, pos);
      var step := ReadStep(all, pos);
      if step.Step? {
        ReadAttributesReadable(all, step.next, rest - PaddedSize(step.size));
        var others := ReadAttributes(all, step.next, rest - PaddedSize(step.size));
        if others.Parsed? {
          AllReadableAdds(step.read, others.attrs);
        }
      }
    }
  }

  lemma CreatedSize(kind: uint16, size: uint16)
    ensures var (made, shape, _) := Create(kind, size); made && shape == ErrorShape ==> size >= 4
  {
  }

  lemma SizesAgree(total: nat, eights: nat)
    requires 8 * eights <= total && total - 3 * eights == total % 0x1_0000
    ensures eights == 0 && total < 0x1_0000
  {
  }

  lemma RestoredOnlyIf(hmac: Hmac, m: Contents, tail: seq<byte>)
    requires IsContents(m) && Restores(hmac, m, Total(m.attrs) % 0x1_0000, tail)
    ensures IsValidMethod(m.method_) && Total(m.attrs) < 0x1_0000 && AllRestorable(m.attrs)
  {
    hide ReadMessage, Header, AttributeBytes, OnWireAll, OnWire, ReadAttributes, IsClass, IsValidMethod, Total, Taken;
    hide WellFormed, Recreated, Readable, Encoded;
    var size: uint16 := Total(m.attrs) % 0x1_0000;
    var header := Header(m, size);
    var attributes := AttributeBytes(hmac, header, m.attrs);
    var all := MessageBytes(hmac, m, size) + tail;
    assert all == header + (attributes + tail) && all == header + attributes + tail;
    ReadWhole(m, size, attributes + tail);
    ReadAttributesReadable(all, HEADER_SIZE, size);
    forall i | 0 <= i < |m.attrs| ensures Recreated(m.attrs[i]) {
      WrittenAt(hmac, header, m.attrs, i);
      OnWireReadable(hmac, header + AttributeBytes(hmac, header, m.attrs[..i]), m.attrs[i]);
    }
    ReadEncoded(hmac, all, header, m.attrs, tail, size);
    assert m.attrs[..Taken(m.attrs, size)] == m.attrs;
    AttributesLength(hmac, header, m.attrs);
    SizesAgree(Total(m.attrs), Eights(m.attrs));
    NoEights(m.attrs);
  }

  /** A message whose size field `add` has kept is restored exactly if its method is defined, its size fits
      sixteen bits and each of its attributes can be restored. */
  lemma RestoredIff(hmac: Hmac, m: Contents, tail: seq<byte>)
    requires IsContents(m)
    ensures Restores(hmac, m, Total(m.attrs) % 0x1_0000, tail)
       <==> IsValidMethod(m.method_) && Total(m.attrs) < 0x1_0000 && AllRestorable(m.attrs)
  {
    hide Restores, IsValidMethod, Total, AllRestorable, IsClass, WellFormed;
    if IsValidMethod(m.method_) && Total(m.attrs) < 0x1_0000 && AllRestorable(m.attrs) {
      RoundTrip(hmac, m, tail);
    }
    if Restores(hmac, m, Total(m.attrs) % 0x1_0000, tail) {
      RestoredOnlyIf(hmac, m, tail);
    }
  }

  /** `verifyHmac`. */
  predicate VerifyHmac(hmac: Hmac, a: Attribute, key: seq<byte>)
    requires a.Integrity?
  {
    hmac(a.input, key) == a.hmac
  }

  /** An integrity attribute written with a key verifies under that key once read back, wherever it stands,
      and under another key only if the two give the same digest; both are taken of the message before it. */
  lemma IntegrityVerifies(hmac: Hmac, m: Contents, tail: seq<byte>, i: nat, key: seq<byte>)
    requires IsContents(m) && IsValidMethod(m.method_)
    requires Total(m.attrs) < 0x1_0000 && AllRestorable(m.attrs)
    requires i < |m.attrs| && m.attrs[i].Integrity? && m.attrs[i].key != []
    ensures var message := MessageBytes(hmac, m, Total(m.attrs));
            var read := ReadMessage(message + tail);
            var before := HEADER_SIZE + Total(m.attrs[..i]);
            && read.Read? && |read.contents.attrs| == |m.attrs| && before <= |message|
            && var a := read.contents.attrs[i];
               && a.Integrity? && a.input == message[..before] && VerifyHmac(hmac, a, m.attrs[i].key)
               && (VerifyHmac(hmac, a, key) <==> hmac(message[..before], key) == hmac(message[..before], m.attrs[i].key))
  {
    hide ReadMessage, Header, AttributeBytes, OnWireAll, IsClass, IsValidMethod, Total, Encoded, Recreated;
    var size: uint16 := Total(m.attrs);
    var header := Header(m, size);
    RoundTrip(hmac, m, tail);
    WrittenAt(hmac, header, m.attrs, i);
    AttributesLength(hmac, header, m.attrs[..i]);
    NoEights(m.attrs[..i]);
    var before := AttributeBytes(hmac, header, m.attrs[..i]);
    var message := MessageBytes(hmac, m, size);
    assert message[..|header + before|] == header + before;
  }

  /** What RFC 5389, section 15.4, has hashed: the message before the attribute, with a length that ends
      behind it. */
  function StandardInput(message: seq<byte>, before: nat, length: uint16): seq<byte>
    requires 4 <= before <= |message|
  {
    message[..2] + Encode(length, 2) + message[4..before]
  }

  lemma {:induction false} TotalOfPrefix(attrs: seq<Attribute>, k: nat)
    requires AllWellFormed(attrs) && k <= |attrs|
    ensures Total(attrs[..k]) + 4 * (|attrs| - k) <= Total(attrs)
  {
    if attrs != [] {
      hide WellFormed;
      if k == 0 {
        TotalOfPrefix(attrs[1..], 0);
        assert attrs[..0] == [] && attrs[1..][..0] == [];
      } else {
        TotalOfPrefix(attrs[1..], k - 1);
        assert attrs[..k][1..] == attrs[1..][..k - 1];
      }
    }
  }

  /** The program hashes the length of the whole message instead, so it hashes what the standard says exactly
      if no attribute follows. */
  lemma StandardInputIff(hmac: Hmac, m: Contents, i: nat)
    requires IsContents(m) && Total(m.attrs) < 0x1_0000 && i < |m.attrs|
    ensures Total(m.attrs[..i + 1]) < 0x1_0000
    ensures var message := MessageBytes(hmac, m, Total(m.attrs));
            var before := HEADER_SIZE + |AttributeBytes(hmac, Header(m, Total(m.attrs)), m.attrs[..i])|;
            && before <= |message|
            && (message[..before] == StandardInput(message, before, Total(m.attrs[..i + 1])) <==> i + 1 == |m.attrs|)
  {
    hide AttributeBytes, Encode, Decode, WellFormed, IsClass, IsValidMethod, Total;
    var size: uint16 := Total(m.attrs);
    var header := Header(m, size);
    WrittenAt(hmac, header, m.attrs, i);
    TotalOfPrefix(m.attrs, i + 1);
    var length: uint16 := Total(m.attrs[..i + 1]);
    var message := MessageBytes(hmac, m, size);
    var before := HEADER_SIZE + |AttributeBytes(hmac, header, m.attrs[..i])|;
    assert message[..20] == header && header[2..4] == Encode(size, 2);
    assert message[2..4] == message[..20][2..4] == Encode(size, 2);
    LengthFieldDecides(message[..before], size, length);
    assert message[..before][..2] == message[..2] && message[..before][4..] == message[4..before];
    if i + 1 == |m.attrs| {
      assert m.attrs[..i + 1] == m.attrs;
    }
  }

  lemma LengthFieldDecides(text: seq<byte>, size: uint16, length: uint16)
    requires |text| >= 4 && text[2..4] == Encode(size, 2)
    ensures text == text[..2] + Encode(length, 2) + text[4..] <==> size == length
  {
    hide Encode, Decode;
    PowersOf256();
    DecodeEncode(size, 2);
    DecodeEncode(length, 2);
    var other := text[..2] + Encode(length, 2) + text[4..];
    assert other[2..4] == Encode(length, 2);
    assert text == text[..2] + text[2..4] + text[4..];
  }

  // The class

  class Message {
    var cls: uint16
    var method_: uint16
    var size: uint16
    var transactionID: seq<byte>
    var attrs: seq<Attribute>

    constructor (cls: uint16, method_: uint16, transactionID: seq<byte>)
      requires IsContents(Contents(cls, method_, transactionID, []))
      ensures Valid() && Value() == Contents(cls, method_, transactionID, [])
    {
      this.cls := cls;
      this.method_ := method_;
      this.transactionID := transactionID;
      size := 0;
      attrs := [];
    }

    function Value(): Contents
      reads this
    {
      Contents(cls, method_, transactionID, attrs)
    }

    /** Holds of every message built by `add` from attributes that are not changed afterwards. */
    ghost predicate Valid()
      reads this
    {
      IsContents(Value()) && size == Total(attrs) % 0x1_0000
    }

    method Add(attr: Attribute)
      requires Valid() && WellFormed(attr)
      modifies this
      ensures Valid() && Value() == old(Value()).(attrs := old(attrs) + [attr])
    {
      hide Total, WellFormed, IsClass, IsValidMethod;
      TotalAdds(attrs, attr);
      attrs := attrs + [attr];
      var attrLength: nat := SizeOf(attr);
      if attrLength % 4 != 0 {
        attrLength := attrLength + (4 - attrLength % 4);
      }
      size := (size + attrLength + 4) % 0x1_0000;
      assert attrs[|attrs| - 1] == attr && forall i :: 0 <= i < |attrs| - 1 ==> attrs[i] == old(attrs)[i];
    }

    /** The first lines of `write`. */
    method WriteHeader(writer: DynamicBitWriter)
      requires IsContents(Value()) && writer.Valid() && writer.offset == 0 && writer.Written() == []
      modifies writer
      ensures writer.Valid() && writer.offset == 0 && writer.Written() == Header(Value(), size)
    {
      hide WellFormed, IsClass, IsValidMethod, Encode;
      writer.Put(Encode(cls + method_, 2));
      writer.Put(Encode(size, 2));
      writer.Put(Encode(MAGIC_COOKIE, 4));
      writer.Put(transactionID);
    }

    /** The message goes to the front of the buffer. */
    method Write(hmac: Hmac, writer: DynamicBitWriter)
      requires IsContents(Value()) && writer.Valid() && writer.offset == 0 && writer.Written() == []
      modifies writer
      ensures writer.Valid() && writer.Written() == MessageBytes(hmac, Value(), size)
    {
      hide Header, AttributeBytes, ValueOf, WellFormed, IsClass, IsValidMethod, Encode;
      WriteHeader(writer);
      var i := 0;
      while i < |attrs|
        invariant i <= |attrs| && writer.Valid() && |writer.Written()| >= HEADER_SIZE
        invariant writer.Written() + AttributeBytes(hmac, writer.Written(), attrs[i..]) == MessageBytes(hmac, Value(), size)
      {
        ghost var before := writer.Written();
        WriteFirst(hmac, before, attrs[i..]);
        assert attrs[i..][0] == attrs[i] && attrs[i..][1..] == attrs[i + 1..];
        writer.Put(Encode(TypeOf(attrs[i]), 2));
        writer.Put(Encode(SizeOf(attrs[i]), 2));
        assert writer.Written()[..|writer.Written()| - 4] == before;
        WriteValue(hmac, writer, attrs[i]);
        assert writer.Written() == before + Encoded(hmac, before, attrs[i]);
        Append(before, Encoded(hmac, before, attrs[i]), AttributeBytes(hmac, writer.Written(), attrs[i + 1..]));
        i := i + 1;
      }
      assert attrs[i..] == [];
      NothingWritten(hmac, writer.Written());
    }

    /** One turn of the loop of `read`. */
    method ReadOne(reader: BitReader) returns (ok: bool, attrLength: uint16)
      requires reader.limit == reader.bytes.Length
      modifies reader, `attrs
      ensures match ReadStep(reader.bytes[..], old(reader.position))
        case Stuck => !ok && attrs == old(attrs)
        case Step(read, next, size) => ok && attrs == old(attrs) + read && reader.position == next && attrLength == size
    {
      hide Decode, Create, ReadValue;
      ghost var all, pos := reader.bytes[..], reader.position;
      var attrType, length, attr;
      attrLength := 0;
      ok, attrType := reader.GetNumber(2);
      if !ok { return; }
      ok, length := reader.GetNumber(2);
      if !ok { return; }
      assert reader.bytes[pos..pos + 2] == all[pos..pos + 2] && reader.bytes[pos + 2..pos + 4] == all[pos + 2..pos + 4];
      NumberFits(all, pos, 2);
      NumberFits(all, pos + 2, 2);
      attrLength := length;
      CreatedSize(attrType, attrLength);
      var (made, shape, kind) := Create(attrType, attrLength);
      if made {
        ok, attr := ReadAttribute(reader, shape, kind, attrLength);
        if !ok { return; }
        attrs := attrs + [attr];
      }
    }

    /** The loop of `read`. */
    method ReadAll(reader: BitReader) returns (ok: bool)
      requires reader.limit == reader.bytes.Length
      modifies reader, `attrs
      ensures match ReadAttributes(reader.bytes[..], old(reader.position), size)
        case Broken => !ok
        case Parsed(_, next) => ok && reader.position == next
      ensures attrs == AttributesBefore(reader.bytes[..], old(reader.position), size)
    {
      hide ReadStep, ReadAttributes, AttributesBefore, PaddingOf;
      ghost var all, start := reader.bytes[..], reader.position;
      attrs := [];
      var rest: int := size;
      NothingRead(ReadAttributes(all, start, rest), AttributesBefore(all, start, rest));
      while rest > 0
        invariant ReadAttributes(all, start, size) == AfterAll(attrs, ReadAttributes(all, reader.position, rest))
        invariant AttributesBefore(all, start, size) == attrs + AttributesBefore(all, reader.position, rest)
        invariant reader.bytes[..] == all
        decreases rest
      {
        var attrLength;
        TurnOfLoop(all, reader.position, rest, attrs);
        ok, attrLength := ReadOne(reader);
        if !ok { return; }
        rest := rest - PaddedSize(attrLength);
      }
      EndOfLoop(all, reader.position, rest, attrs);
      ok := true;
    }

    /** Returns the position behind the message, or 0; the fields are left as far as they were read. */
    method Read(buf: array<byte>) returns (count: nat)
      modifies this
      ensures count == (match ReadMessage(buf[..]) case Rejected => 0 case Read(_, _, position) => position)
      ensures Fields(Value(), size) == AfterRead(old(Fields(Value(), size)), buf[..])
    {
      hide Decode, ReadAttributes, AttributesBefore;
      ghost var all := buf[..];
      var reader := new BitReader(buf);
      var ok, kind, length, id;
      ok, kind := reader.GetNumber(2);
      if !ok { return 0; }
      assert all[0..2] == buf[0..2];
      NumberFits(all, 0, 2);
      if kind >= 0x8000 { return 0; }
      if !IsValidMethod(kind % 16) { return 0; }
      cls, method_ := kind / 256 % 2 * 256 + kind / 16 % 2 * 16, kind % 16;
      ok, length := reader.GetNumber(2);
      if !ok { return 0; }
      assert all[2..4] == buf[2..4];
      NumberFits(all, 2, 2);
      size := length;
      if size > buf.Length { return 0; }
      ok := reader.Skip(4);
      if ok {
        ok, id := reader.Get(TRANSACTION_ID_LENGTH);
      }
      if !ok { return 0; }
      assert all[8..20] == buf[8..20];
      transactionID := id;
      ok := ReadAll(reader);
      count := if ok then reader.position else 0;
    }
  }

  lemma NothingRead(others: AttributesRead, attrs: seq<Attribute>)
    ensures AfterAll([], others) == others && [] + attrs == attrs
  {
    if others.Parsed? { assert [] + others.attrs == others.attrs; }
  }

  lemma TurnOfLoop(all: seq<byte>, pos: nat, rest: int, attrs: seq<Attribute>)
    requires rest > 0
    ensures match ReadStep(all, pos)
      case Stuck => AfterAll(attrs, ReadAttributes(all, pos, rest)) == Broken && attrs + AttributesBefore(all, pos, rest) == attrs
      case Step(read, next, size) =>
        && AfterAll(attrs, ReadAttributes(all, pos, rest)) == AfterAll(attrs + read, ReadAttributes(all, next, rest - PaddedSize(size)))
        && attrs + AttributesBefore(all, pos, rest) == (attrs + read) + AttributesBefore(all, next, rest - PaddedSize(size))
  {
    hide ReadStep, PaddedSize;
    var step := ReadStep(all, pos);
    if step.Step? {
      var others := ReadAttributes(all, step.next, rest - PaddedSize(step.size));
      if others.Parsed? { assert attrs + (step.read + others.attrs) == (attrs + step.read) + others.attrs; }
    }
  }

  lemma EndOfLoop(all: seq<byte>, pos: nat, rest: int, attrs: seq<Attribute>)
    requires rest <= 0
    ensures AfterAll(attrs, ReadAttributes(all, pos, rest)) == Parsed(attrs, pos) && attrs + AttributesBefore(all, pos, rest) == attrs
  {
  }

  lemma Append(a: seq<byte>, b: seq<byte>, c: seq<byte>)
    ensures a + b + c == a + (b + c)
  {
  }
}
