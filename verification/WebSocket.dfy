/** WebSocket frames (src/http/src/websocket.cpp): `writeFrame`, `readFrame` and the loop that takes joined
    frames apart, unmasking each payload where it lies.
 */
module WebSocket {
  import opened BitBuffer
  import opened Powers

  const TEXT: byte := 0x81
  const BINARY: byte := 0x82

  const MAX_HEADER_LENGTH: nat := 14

  /** A frame to send: `mask` is [] on the server side and four bytes on the client side. */
  datatype Frame = Frame(flags: byte, mask: seq<byte>, payload: seq<byte>)

  predicate IsFrame(f: Frame) {
    (f.flags == TEXT || f.flags == BINARY) && (f.mask == [] || |f.mask| == 4)
  }

  function Masked(payload: seq<byte>, mask: seq<byte>): (masked: seq<byte>)
    requires |mask| == 4
    ensures |masked| == |payload|
  {
    seq(|payload|, i requires 0 <= i < |payload| => XorByte(payload[i], mask[i % 4]))
  }

  lemma MaskedTwice(payload: seq<byte>, mask: seq<byte>)
    requires |mask| == 4
    ensures Masked(Masked(payload, mask), mask) == payload
  {
    forall i | 0 <= i < |payload| ensures Masked(Masked(payload, mask), mask)[i] == payload[i] {
      XorTwice(payload[i], mask[i % 4]);
    }
  }

  /** The length byte and the extended length. From 65536 on, the length is cut to its low 16 bits
      before it is written as 64 bits. */
  function LengthBytes(masked: bool, len: nat): seq<byte> {
    var flag := if masked then 0x80 else 0;
    if len < 126 then [flag + len]
    else if len < 65536 then [flag + 126] + Encode(len, 2)
    else [flag + 127] + Encode(len % 65536, 8)
  }

  function Body(f: Frame): seq<byte>
    requires IsFrame(f)
  {
    if f.mask == [] then f.payload else f.mask + Masked(f.payload, f.mask)
  }

  /** The bytes of a frame (RFC 6455, sections 5.2 and 5.3). */
  function Bytes(f: Frame): seq<byte>
    requires IsFrame(f)
  {
    [f.flags] + LengthBytes(f.mask != [], |f.payload|) + Body(f)
  }

  // The bytes themselves

  /** Where the mask or, without one, the payload begins. */
  function HeadLength(len: nat): nat {
    if len < 126 then 2 else if len < 65536 then 4 else 10
  }

  /** The head of a frame with a payload of `len` bytes: an extended length has its highest byte first. */
  predicate IsHead(bytes: seq<byte>, flags: byte, masked: bool, len: nat) {
    && |bytes| >= HeadLength(len) && bytes[0] == flags
    && bytes[1] == (if masked then 0x80 else 0) + (if len < 126 then len else if len < 65536 then 126 else 127)
    && (126 <= len < 65536 ==> bytes[2] == len / 256 && bytes[3] == len % 256)
    && (65536 <= len ==>
          (forall i :: 2 <= i < 8 ==> bytes[i] == 0) && bytes[8] == len % 65536 / 256 && bytes[9] == len % 256)
  }

  lemma SmallNumber(n: nat, width: nat)
    requires n < 65536 && width >= 2
    ensures var bytes := Encode(n, width);
            && (forall i :: 0 <= i < width - 2 ==> bytes[i] == 0)
            && bytes[width - 2] == n / 256 && bytes[width - 1] == n % 256
  {
    assert n / 256 / 256 == 0;
    assert Encode(n, width) == Encode(n / 256, width - 1) + [n % 256];
    assert Encode(n / 256, width - 1) == Encode(n / 256 / 256, width - 2) + [n / 256 % 256];
    OnlyZeros(width - 2);
  }

  lemma {:induction false} OnlyZeros(width: nat)
    ensures forall i :: 0 <= i < width ==> Encode(0, width)[i] == 0
  {
    if width > 0 { OnlyZeros(width - 1); }
  }

  lemma LengthLayout(flags: byte, masked: bool, len: nat)
    ensures var head := [flags] + LengthBytes(masked, len); |head| == HeadLength(len) && IsHead(head, flags, masked, len)
  {
    hide Encode;
    if 126 <= len < 65536 {
      SmallNumber(len, 2);
    } else if len >= 65536 {
      SmallNumber(len % 65536, 8);
      assert len % 65536 % 256 == len % 256;
    }
  }

  /** What a frame looks like on the wire: its head, its mask and, byte by byte, its payload, every byte of which is
      combined with one of the four mask bytes in turn (RFC 6455, section 5.3). */
  lemma FrameLayout(f: Frame)
    requires IsFrame(f)
    ensures var bytes, n := Bytes(f), |f.payload|;
            var start := HeadLength(n) + |f.mask|;
            && |bytes| == start + n && IsHead(bytes, f.flags, f.mask != [], n) && bytes[HeadLength(n)..start] == f.mask
            && forall i :: 0 <= i < n ==>
                 bytes[start + i] == if f.mask == [] then f.payload[i] else XorByte(f.payload[i], f.mask[i % 4])
  {
    hide LengthBytes, XorByte, IsHead;
    var n, masked := |f.payload|, f.mask != [];
    var head := [f.flags] + LengthBytes(masked, n);
    LengthLayout(f.flags, masked, n);
    HeadInFront(head, Body(f), f.flags, masked, n);
    if masked {
      assert Bytes(f) == head + f.mask + Masked(f.payload, f.mask);
    } else {
      assert Bytes(f) == head + f.payload;
    }
  }

  lemma HeadInFront(head: seq<byte>, body: seq<byte>, flags: byte, masked: bool, len: nat)
    requires |head| == HeadLength(len) && IsHead(head, flags, masked, len)
    ensures IsHead(head + body, flags, masked, len)
  {
  }

  /** `writeFrame`. The frame is written exactly when the buffer has room for it. */
  method WriteFrame(f: Frame, writer: BitWriter) returns (ok: bool)
    requires IsFrame(f) && writer.Valid() && writer.position == 0
    modifies writer, writer.bytes
    ensures writer.Valid() && ok == (|Bytes(f)| <= writer.limit)
    ensures ok ==> writer.Written() == Bytes(f)
  {
    hide LengthBytes, Masked;
    ok := writer.Put([f.flags]);
    if !ok { return; }
    ok := WriteLength(f.mask != [], |f.payload|, writer);
    if !ok { return; }
    assert writer.Written() == [f.flags] + LengthBytes(f.mask != [], |f.payload|);
    if f.mask == [] {
      ok := writer.Put(f.payload);
    } else {
      ok := WriteMasked(f.payload, f.mask, writer);
    }
  }

  method WriteMasked(payload: seq<byte>, mask: seq<byte>, writer: BitWriter) returns (ok: bool)
    requires |mask| == 4 && writer.Valid()
    modifies writer, writer.bytes
    ensures writer.Valid() && ok == (old(writer.position) + |mask| + |payload| <= writer.limit)
    ensures ok ==> writer.Written() == old(writer.Written()) + (mask + Masked(payload, mask))
  {
    hide XorByte;
    ok := writer.Put(mask);
    if !ok { return; }
    ghost var before := writer.Written();
    var i := 0;
    while i < |payload|
      invariant i <= |payload| && writer.Valid()
      invariant writer.Written() == before + Masked(payload, mask)[..i]
    {
      ok := writer.Put([XorByte(payload[i], mask[i % 4])]);
      if !ok { return; }
      i := i + 1;
    }
  }

  /** What follows the first byte of a length. */
  function LengthTail(len: nat): seq<byte> {
    if len < 126 then [] else if len < 65536 then Encode(len, 2) else Encode(len % 65536, 8)
  }

  lemma LengthParts(masked: bool, len: nat)
    ensures var first: byte := (if masked then 0x80 else 0) + (if len < 126 then len else if len < 65536 then 126 else 127);
            LengthBytes(masked, len) == [first] + LengthTail(len)
    ensures |LengthTail(len)| == if len < 126 then 0 else if len < 65536 then 2 else 8
  {
    hide Encode;
    assert forall b: byte :: [b] + [] == [b];
  }

  method WriteLength(masked: bool, len: nat, writer: BitWriter) returns (ok: bool)
    requires writer.Valid()
    modifies writer, writer.bytes
    ensures writer.Valid() && ok == (old(writer.position) + |LengthBytes(masked, len)| <= writer.limit)
    ensures ok ==> writer.Written() == old(writer.Written()) + LengthBytes(masked, len)
  {
    LengthParts(masked, len);
    hide LengthBytes, Encode;
    ghost var before := writer.Written();
    var lenByte: byte := 0;
    if masked {
      lenByte := lenByte + 0x80;
    }
    if len < 126 {
      ok := writer.Put([lenByte + len]);
      assert LengthTail(len) == [] && before + [lenByte + len] == before + ([lenByte + len] + []);
    } else if len < 65536 {
      ok := PutBoth(writer, lenByte + 126, Encode(len, 2));
    } else {
      ok := PutBoth(writer, lenByte + 127, Encode(len % 65536, 8));
    }
  }

  method PutBoth(writer: BitWriter, first: byte, tail: seq<byte>) returns (ok: bool)
    requires writer.Valid()
    modifies writer, writer.bytes
    ensures writer.Valid() && ok == (old(writer.position) + 1 + |tail| <= writer.limit)
    ensures ok ==> writer.Written() == old(writer.Written()) + ([first] + tail)
  {
    ok := writer.Put([first]);
    if ok { ok := writer.Put(tail); }
  }

  // Reading

  datatype FrameRead =
    | Read(flags: byte, payload: seq<byte>, start: nat, next: nat)
    | Broken

  /** How many bytes `readFrame` copies into its header buffer after the first two. */
  function HeaderRest(lengthByte: byte): nat {
    var wanted := lengthByte % 128 + (if lengthByte >= 128 then 4 else 0);
    if wanted + 2 < MAX_HEADER_LENGTH then wanted else MAX_HEADER_LENGTH - 2
  }

  function LengthWidth(lengthByte: byte): nat {
    if lengthByte % 128 == 127 then 8 else if lengthByte % 128 == 126 then 2 else 0
  }

  function PayloadOffset(lengthByte: byte): nat {
    2 + LengthWidth(lengthByte) + (if lengthByte >= 128 then 4 else 0)
  }

  lemma HeaderHoldsFields(lengthByte: byte)
    ensures (if lengthByte >= 128 then 6 else 2) <= PayloadOffset(lengthByte)
    ensures 2 + LengthWidth(lengthByte) <= PayloadOffset(lengthByte) <= 2 + HeaderRest(lengthByte) <= MAX_HEADER_LENGTH
  {
  }

  function PayloadLength(bytes: seq<byte>): nat
    requires |bytes| >= 2 && |bytes| >= 2 + LengthWidth(bytes[1])
  {
    if LengthWidth(bytes[1]) == 0 then bytes[1] % 128 else Decode(bytes[2..2 + LengthWidth(bytes[1])])
  }

  /** What `readFrame` makes of the bytes from the reader's position on; `limit` is the size of the whole
      buffer, which is what the length is checked against. Offsets count from the first of these bytes. */
  function ReadFrom(bytes: seq<byte>, limit: nat): (read: FrameRead)
    ensures read.Read? ==> 2 <= read.start && read.start + |read.payload| == read.next <= |bytes|
  {
    if |bytes| < 2 || |bytes| < 2 + HeaderRest(bytes[1]) then Broken
    else
      HeaderHoldsFields(bytes[1]);
      var len := PayloadLength(bytes);
      var start := PayloadOffset(bytes[1]);
      if len > limit || start + len > |bytes| then Broken
      else
        var body := bytes[start..start + len];
        Read(bytes[0], if bytes[1] >= 128 then Masked(body, bytes[start - 4..start]) else body, start, start + len)
  }

  /** What the receive loop emits, and whether it reaches the end without an error. */
  function Receive(bytes: seq<byte>, limit: nat): (seq<seq<byte>>, bool) {
    if bytes == [] then ([], true)
    else
      match ReadFrom(bytes, limit)
      case Broken => ([], false)
      case Read(_, payload, _, next) =>
        var (rest, ok) := Receive(bytes[next..], limit);
        (if payload == [] then rest else [payload] + rest, ok)
  }

  // The bytes of a frame to read

  /** The number in two bytes. */
  function Pair(bytes: seq<byte>, i: nat): int
    requires i + 1 < |bytes|
  {
    var high: int, low: int := bytes[i], bytes[i + 1];
    256 * high + low
  }

  /** The length a frame announces, and where its payload begins. */
  function Announced(bytes: seq<byte>): int
    requires IsHeadComplete(bytes)
  {
    if bytes[1] % 128 < 126 then bytes[1] % 128
    else if bytes[1] % 128 == 126 then Pair(bytes, 2)
    else ((Pair(bytes, 2) * 0x1_0000 + Pair(bytes, 4)) * 0x1_0000 + Pair(bytes, 6)) * 0x1_0000 + Pair(bytes, 8)
  }

  function Start(lengthByte: byte): nat {
    (if lengthByte % 128 < 126 then 2 else if lengthByte % 128 == 126 then 4 else 10) + (if lengthByte < 128 then 0 else 4)
  }

  /** As many bytes are wanted behind the first two as the length byte says, with the mask, but never more than
      twelve. */
  predicate IsHeadComplete(bytes: seq<byte>) {
    && |bytes| >= 2
    && var wanted := bytes[1] % 128 + (if bytes[1] < 128 then 0 else 4);
       |bytes| >= if wanted < 12 then 2 + wanted else 14
  }

  lemma PairIsNumber(bytes: seq<byte>, i: nat)
    requires i + 1 < |bytes|
    ensures Decode(bytes[i..i + 2]) == Pair(bytes, i)
  {
    var b := bytes[i..i + 2];
    assert b[..1][..0] == [] && Decode(b[..1]) == b[0];
  }

  lemma FourPairs(bytes: seq<byte>)
    requires |bytes| >= 10
    ensures Decode(bytes[2..10]) == ((Pair(bytes, 2) * 0x1_0000 + Pair(bytes, 4)) * 0x1_0000 + Pair(bytes, 6)) * 0x1_0000 + Pair(bytes, 8)
  {
    hide Decode;
    assert Pow(256, 2) == 0x1_0000;
    PairIsNumber(bytes, 2);
    PairIsNumber(bytes, 4);
    PairIsNumber(bytes, 6);
    PairIsNumber(bytes, 8);
    assert bytes[2..4] + bytes[4..6] == bytes[2..6] && bytes[2..6] + bytes[6..8] == bytes[2..8] && bytes[2..8] + bytes[8..10] == bytes[2..10];
    DecodeJoin(bytes[2..4], bytes[4..6]);
    DecodeJoin(bytes[2..6], bytes[6..8]);
    DecodeJoin(bytes[2..8], bytes[8..10]);
  }

  lemma HeadComplete(bytes: seq<byte>)
    ensures IsHeadComplete(bytes) <==> |bytes| >= 2 && |bytes| >= 2 + HeaderRest(bytes[1])
    ensures IsHeadComplete(bytes) ==> |bytes| >= 2 + LengthWidth(bytes[1]) && PayloadLength(bytes) == Announced(bytes)
    ensures |bytes| >= 2 ==> PayloadOffset(bytes[1]) == Start(bytes[1])
  {
    hide Decode, Pair;
    if IsHeadComplete(bytes) {
      if bytes[1] % 128 == 126 {
        PairIsNumber(bytes, 2);
      } else if bytes[1] % 128 == 127 {
        FourPairs(bytes);
      }
    }
  }

  /** A frame is read exactly if its head is there and its length is within the limit and the bytes. Every byte of
      a masked payload is combined with one of the four bytes before the payload in turn. */
  lemma ReadDecides(bytes: seq<byte>, limit: nat)
    ensures ReadFrom(bytes, limit).Read?
       <==> IsHeadComplete(bytes) && Announced(bytes) <= limit && Start(bytes[1]) + Announced(bytes) <= |bytes|
    ensures var read := ReadFrom(bytes, limit);
            read.Read? ==>
              var start := Start(bytes[1]);
              && read.flags == bytes[0] && |read.payload| == Announced(bytes) && read.next == start + |read.payload|
              && forall i :: 0 <= i < |read.payload| ==>
                   read.payload[i] == if bytes[1] < 128 then bytes[start + i] else XorByte(bytes[start + i], bytes[start - 4 + i % 4])
  {
    hide Announced, HeaderRest, XorByte, PayloadLength, LengthWidth, IsHeadComplete, PayloadOffset;
    HeadComplete(bytes);
  }

  lemma ReadLengthByte(masked: bool, len: nat)
    ensures var b := LengthBytes(masked, len)[0];
            && (b >= 128 <==> masked) && LengthWidth(b) == |LengthBytes(masked, len)| - 1
            && (LengthWidth(b) == 0 ==> b % 128 == len)
  {
  }

  lemma HeaderOfFrame(f: Frame, tail: seq<byte>)
    requires IsFrame(f)
    ensures var b := Bytes(f) + tail;
            && b[1] == LengthBytes(f.mask != [], |f.payload|)[0]
            && PayloadOffset(b[1]) == 1 + |LengthBytes(f.mask != [], |f.payload|)| + |f.mask|
            && 2 + HeaderRest(b[1]) <= |Bytes(f)|
            && PayloadLength(b) == if |f.payload| < 65536 then |f.payload| else |f.payload| % 65536
  {
    hide Encode, Decode, Masked;
    var len, length := |f.payload|, LengthBytes(f.mask != [], |f.payload|);
    var b := Bytes(f) + tail;
    ReadLengthByte(f.mask != [], len);
    assert b == [f.flags, length[0]] + length[1..] + (Body(f) + tail);
    if len >= 126 {
      var width := |length| - 1;
      var n := if len < 65536 then len else len % 65536;
      assert length[1..] == Encode(n, width);
      assert Pow(256, 2) == 65536;
      assert Pow(256, 8) == 0x1_0000_0000_0000_0000 by { assert Pow(256, 4) == 0x1_0000_0000; }
      DecodeEncode(n, width);
    }
  }

  /** A frame read back is the frame written, whatever follows it, exactly when its payload is shorter
      than 65536 bytes. */
  lemma ReadWritten(f: Frame, tail: seq<byte>, limit: nat)
    requires IsFrame(f) && |Bytes(f) + tail| <= limit
    ensures var read := ReadFrom(Bytes(f) + tail, limit);
            (read.Read? && read.payload == f.payload) <==> |f.payload| < 65536
    ensures |f.payload| < 65536 ==>
              ReadFrom(Bytes(f) + tail, limit)
              == Read(f.flags, f.payload, |Bytes(f)| - |f.payload|, |Bytes(f)|)
  {
    hide LengthBytes, Masked, HeaderRest, LengthWidth, PayloadOffset, PayloadLength;
    var b := Bytes(f) + tail;
    var length := LengthBytes(f.mask != [], |f.payload|);
    HeaderOfFrame(f, tail);
    ReadLengthByte(f.mask != [], |f.payload|);
    FramePieces(f, tail, length, |f.payload|);
    if f.mask != [] {
      MaskedTwice(f.payload, f.mask);
    }
  }

  /** Where the mask and the payload lie in a frame. */
  lemma FramePieces(f: Frame, tail: seq<byte>, length: seq<byte>, len: nat)
    requires IsFrame(f) && length == LengthBytes(f.mask != [], |f.payload|) && len == |f.payload|
    ensures var b := Bytes(f) + tail;
            var start := 1 + |length| + |f.mask|;
            && |Bytes(f)| == start + len
            && b[start..start + len] == (if f.mask == [] then f.payload else Masked(f.payload, f.mask))
            && (f.mask != [] ==> b[start - 4..start] == f.mask)
  {
    hide LengthBytes, Masked;
    var b := Bytes(f) + tail;
    var head := [f.flags] + length;
    if f.mask == [] {
      assert b == head + f.payload + tail;
    } else {
      assert b == head + f.mask + Masked(f.payload, f.mask) + tail;
    }
  }

  function Concat(frames: seq<Frame>): seq<byte>
    requires forall f :: f in frames ==> IsFrame(f)
  {
    if frames == [] then [] else Bytes(frames[0]) + Concat(frames[1..])
  }

  function NonEmptyPayloads(frames: seq<Frame>): seq<seq<byte>> {
    if frames == [] then []
    else if frames[0].payload == [] then NonEmptyPayloads(frames[1..])
    else [frames[0].payload] + NonEmptyPayloads(frames[1..])
  }

  predicate AllShort(frames: seq<Frame>) {
    forall f :: f in frames ==> IsFrame(f) && |f.payload| < 65536
  }

  function Emitted(f: Frame): seq<seq<byte>> {
    if f.payload == [] then [] else [f.payload]
  }

  lemma ReceiveOne(f: Frame, tail: seq<byte>, limit: nat)
    requires IsFrame(f) && |f.payload| < 65536 && |Bytes(f) + tail| <= limit
    ensures var (rest, ok) := Receive(tail, limit); Receive(Bytes(f) + tail, limit) == (Emitted(f) + rest, ok)
  {
    hide ReadFrom, Bytes;
    FrameIsNotEmpty(f);
    ReadWritten(f, tail, limit);
    assert (Bytes(f) + tail)[|Bytes(f)|..] == tail;
    assert [] + Receive(tail, limit).0 == Receive(tail, limit).0;
  }

  /** Complete frames are taken off the front of a buffer, whatever follows them. */
  lemma {:induction false} ReceiveOn(frames: seq<Frame>, tail: seq<byte>, limit: nat)
    requires AllShort(frames) && |Concat(frames) + tail| <= limit
    ensures var (rest, ok) := Receive(tail, limit);
            Receive(Concat(frames) + tail, limit) == (NonEmptyPayloads(frames) + rest, ok)
  {
    hide ReadFrom, Bytes, Receive;
    var rest := Receive(tail, limit).0;
    if frames == [] {
      assert Concat(frames) + tail == tail && [] + rest == rest;
    } else {
      var first, others := frames[0], frames[1..];
      assert Concat(frames) + tail == Bytes(first) + (Concat(others) + tail);
      ReceiveOne(first, Concat(others) + tail, limit);
      ReceiveOn(others, tail, limit);
      assert Emitted(first) + (NonEmptyPayloads(others) + rest) == NonEmptyPayloads(frames) + rest;
    }
  }

  lemma FrameIsNotEmpty(f: Frame)
    requires IsFrame(f)
    ensures |Bytes(f)| >= 2
  {
  }

  /** Joined frames: the loop emits exactly the non-empty payloads, in order, and stops at the end. */
  lemma ReceiveJoined(frames: seq<Frame>, limit: nat)
    requires AllShort(frames) && |Concat(frames)| <= limit
    ensures Receive(Concat(frames), limit) == (NonEmptyPayloads(frames), true)
  {
    ReceiveOn(frames, [], limit);
    assert Concat(frames) + [] == Concat(frames);
    assert NonEmptyPayloads(frames) + [] == NonEmptyPayloads(frames);
  }

  /** A buffer with one short masked frame: the loop emits its bytes, unmasked. */
  lemma OneFrameReceived(flags: byte, mask: seq<byte>, data: seq<byte>, limit: nat)
    requires |mask| == 4 && 0 < |data| < 126 && 6 + |data| <= limit
    ensures var (emitted, ok) := Receive([flags, 0x80 + |data|] + mask + data, limit);
            && ok && |emitted| == 1 && |emitted[0]| == |data|
            && forall i :: 0 <= i < |data| ==> emitted[0][i] == XorByte(data[i], mask[i % 4])
  {
    hide XorByte;
    var bytes := [flags, 0x80 + |data|] + mask + data;
    assert IsHeadComplete(bytes) && Announced(bytes) == |data| && Start(bytes[1]) == 6;
    hide ReadFrom, Announced, Start, IsHeadComplete;
    ReadDecides(bytes, limit);
    var read := ReadFrom(bytes, limit);
    assert bytes[read.next..] == [] && bytes != [];
    LastFrame(bytes, limit);
    assert forall i :: 0 <= i < |data| ==> bytes[6 + i] == data[i] && bytes[2 + i % 4] == mask[i % 4];
  }

  lemma LastFrame(bytes: seq<byte>, limit: nat)
    requires var read := ReadFrom(bytes, limit); bytes != [] && read.Read? && read.payload != [] && bytes[read.next..] == []
    ensures Receive(bytes, limit) == ([ReadFrom(bytes, limit).payload], true)
  {
    hide ReadFrom;
    var payload := ReadFrom(bytes, limit).payload;
    assert Receive([], limit) == ([], true) && [payload] + [] == [payload];
  }

  /** The masked example of RFC 6455, section 5.7. */
  lemma HelloReceived()
    ensures Receive([0x81, 0x85, 0x37, 0xfa, 0x21, 0x3d, 0x7f, 0x9f, 0x4d, 0x51, 0x58], 11) == ([[0x48, 0x65, 0x6c, 0x6c, 0x6f]], true)
  {
    hide Receive, XorByte;
    OneFrameReceived(0x81, [0x37, 0xfa, 0x21, 0x3d], [0x7f, 0x9f, 0x4d, 0x51, 0x58], 11);
    LetterH();
    LetterE();
    FirstL();
    SecondL();
    LetterO();
    var bytes := [0x81, 0x85] + [0x37, 0xfa, 0x21, 0x3d] + [0x7f, 0x9f, 0x4d, 0x51, 0x58];
    assert bytes == [0x81, 0x85, 0x37, 0xfa, 0x21, 0x3d, 0x7f, 0x9f, 0x4d, 0x51, 0x58];
    var emitted := Receive(bytes, 11).0;
    assert emitted[0] == [0x48, 0x65, 0x6c, 0x6c, 0x6f];
    assert emitted == [emitted[0]];
  }

  lemma LetterH()
    ensures XorByte(0x7f, 0x37) == 0x48
  {
    hide XorByte, Xor;
    XorOfBits(0, 1, 1, 1, 0, 0, 1, 1);
    XorOfBits(1, 1, 1, 1, 0, 1, 1, 1);
    XorOfDigits(0x7f, 0x37);
  }

  lemma LetterE()
    ensures XorByte(0x9f, 0xfa) == 0x65
  {
    hide XorByte, Xor;
    XorOfBits(1, 0, 0, 1, 1, 1, 1, 1);
    XorOfBits(1, 1, 1, 1, 1, 0, 1, 0);
    XorOfDigits(0x9f, 0xfa);
  }

  lemma FirstL()
    ensures XorByte(0x4d, 0x21) == 0x6c
  {
    hide XorByte, Xor;
    XorOfBits(0, 1, 0, 0, 0, 0, 1, 0);
    XorOfBits(1, 1, 0, 1, 0, 0, 0, 1);
    XorOfDigits(0x4d, 0x21);
  }

  lemma SecondL()
    ensures XorByte(0x51, 0x3d) == 0x6c
  {
    hide XorByte, Xor;
    XorOfBits(0, 1, 0, 1, 0, 0, 1, 1);
    XorOfBits(0, 0, 0, 1, 1, 1, 0, 1);
    XorOfDigits(0x51, 0x3d);
  }

  lemma LetterO()
    ensures XorByte(0x58, 0x37) == 0x6f
  {
    hide XorByte, Xor;
    XorOfBits(0, 1, 0, 1, 0, 0, 1, 1);
    XorOfBits(1, 0, 0, 0, 0, 1, 1, 1);
    XorOfDigits(0x58, 0x37);
  }

  lemma CutHeader(b: seq<byte>, n: nat)
    requires 2 <= n <= |b| && n >= 2 + HeaderRest(b[1])
    ensures b[..n][1] == b[1] && PayloadLength(b[..n]) == PayloadLength(b)
  {
    hide HeaderRest, LengthWidth, Decode;
    HeaderHoldsFields(b[1]);
    SameSlice(b, b[..n], n, 2, 2 + LengthWidth(b[1]));
  }

  /** A frame that is cut short is refused, wherever the cut is. */
  lemma CutFrameBroken(f: Frame, n: nat, limit: nat)
    requires IsFrame(f) && |f.payload| < 65536 && 0 < n < |Bytes(f)|
    ensures ReadFrom(Bytes(f)[..n], limit) == Broken
  {
    hide LengthBytes, Masked, HeaderRest, LengthWidth, PayloadOffset, PayloadLength, Bytes;
    var b := Bytes(f);
    assert b + [] == b;
    HeaderOfFrame(f, []);
    FramePieces(f, [], LengthBytes(f.mask != [], |f.payload|), |f.payload|);
    if n >= 2 && n >= 2 + HeaderRest(b[1]) {
      CutHeader(b, n);
    }
  }

  /** A buffer that ends inside a frame: the complete ones before it are emitted, and then the loop fails. */
  lemma ReceiveCut(frames: seq<Frame>, f: Frame, n: nat, limit: nat)
    requires AllShort(frames + [f]) && n < |Bytes(f)| && |Concat(frames)| + n <= limit
    ensures Receive(Concat(frames) + Bytes(f)[..n], limit) == (NonEmptyPayloads(frames), n == 0)
  {
    hide ReadFrom, Bytes;
    forall g | g in frames ensures g in frames + [f] {}
    assert f in frames + [f];
    ReceiveOn(frames, Bytes(f)[..n], limit);
    if n > 0 {
      CutFrameBroken(f, n, limit);
    }
    assert NonEmptyPayloads(frames) + [] == NonEmptyPayloads(frames);
  }

  // The reader's own methods

  /** Unmasks a payload where it lies in the receive buffer. */
  method Unmask(bytes: array<byte>, start: nat, len: nat, mask: seq<byte>)
    requires |mask| == 4 && start + len <= bytes.Length
    modifies bytes
    ensures bytes[start..start + len] == Masked(old(bytes[start..start + len]), mask)
    ensures bytes[..start] == old(bytes[..start]) && bytes[start + len..] == old(bytes[start + len..])
  {
    hide XorByte;
    var i := 0;
    while i < len
      invariant i <= len
      invariant forall k :: 0 <= k < i ==> bytes[start + k] == XorByte(old(bytes[start + k]), mask[k % 4])
      invariant forall k :: 0 <= k < start || start + i <= k < bytes.Length ==> bytes[k] == old(bytes[k])
    {
      bytes[start + i] := XorByte(bytes[start + i], mask[i % 4]);
      i := i + 1;
    }
  }

  lemma Cut<T>(s: seq<T>, start: nat, len: nat)
    ensures start + len <= |s| ==> s[start..][..len] == s[start..start + len] && s[start..][len..] == s[start + len..]
  {
  }

  lemma SameSlice<T>(a: seq<T>, b: seq<T>, n: nat, i: nat, j: nat)
    requires n <= |a| && n <= |b| && a[..n] == b[..n] && i <= j <= n
    ensures a[i..j] == b[i..j]
  {
    forall k | i <= k < j ensures a[k] == b[k] {
      assert a[k] == a[..n][k] && b[k] == b[..n][k];
    }
  }

  /** The first lines of `readFrame`: copies what may be the header into a buffer of fourteen bytes. */
  method CopyHeader(reader: BitReader) returns (ok: bool, header: array<byte>)
    requires reader.limit == reader.bytes.Length && reader.position <= reader.limit
    modifies reader
    ensures reader.bytes[..] == old(reader.bytes[..])
    ensures fresh(header) && header.Length == MAX_HEADER_LENGTH
    ensures var rest := reader.bytes[old(reader.position)..];
            && ok == (|rest| >= 2 && |rest| >= 2 + HeaderRest(rest[1]))
            && (ok ==> header[..2 + HeaderRest(rest[1])] == rest[..2 + HeaderRest(rest[1])])
  {
    header := new byte[MAX_HEADER_LENGTH];
    ghost var rest, all, start := reader.bytes[reader.position..], reader.bytes[..], reader.position;
    var first, more;
    ok, first := reader.Get(2);
    if !ok { return; }
    assert first == rest[..2] && first[1] == rest[1];
    header[0], header[1] := first[0], first[1];
    assert header[..2] == first;
    hide HeaderRest;
    ok, more := GetRest(reader, header[1]);
    if !ok { return; }
    assert reader.bytes[..] == all && more == all[start + 2..start + 2 + |more|];
    InRest(all, start, |more|);
    FillHeader(header, more);
    assert rest[..2 + |more|] == rest[..2] + rest[2..2 + |more|];
  }

  /** As many bytes as the length and the mask may take, up to the size of the header. */
  method GetRest(reader: BitReader, lengthByte: byte) returns (ok: bool, more: seq<byte>)
    requires reader.limit == reader.bytes.Length
    modifies reader
    ensures ok == (HeaderRest(lengthByte) <= old(reader.Available()))
    ensures ok ==> more == reader.bytes[old(reader.position)..old(reader.position) + HeaderRest(lengthByte)]
    ensures ok ==> |more| == HeaderRest(lengthByte) <= MAX_HEADER_LENGTH - 2
  {
    var maskOffset := if lengthByte >= 0x80 then 4 else 0;
    if lengthByte % 128 + 2 + maskOffset < MAX_HEADER_LENGTH {
      ok, more := reader.Get(lengthByte % 128 + maskOffset);
    } else {
      ok, more := reader.Get(MAX_HEADER_LENGTH - 2);
    }
  }

  lemma InRest(all: seq<byte>, start: nat, n: nat)
    requires start + 2 + n <= |all|
    ensures all[start..][2..2 + n] == all[start + 2..start + 2 + n]
  {
  }

  method FillHeader(header: array<byte>, more: seq<byte>)
    requires 2 + |more| <= header.Length
    modifies header
    ensures header[..2 + |more|] == old(header[..2]) + more
  {
    forall i | 2 <= i < 2 + |more| {
      header[i] := more[i - 2];
    }
  }

  /** The middle of `readFrame`: takes the fields out of the copied header. */
  method ParseHeader(header: array<byte>) returns (flags: byte, masked: bool, len: nat, payloadOffset: nat, mask: seq<byte>)
    requires header.Length == MAX_HEADER_LENGTH
    ensures flags == header[0] && masked == (header[1] >= 128)
    ensures payloadOffset == PayloadOffset(header[1]) && len == PayloadLength(header[..])
    ensures mask == if masked then header[..][payloadOffset - 4..payloadOffset] else []
  {
    hide Decode;
    var ok, lengthByte;
    var headerReader := new BitReader(header);
    ok, flags := GetByte(headerReader);
    ok, lengthByte := GetByte(headerReader);
    masked := lengthByte >= 0x80;
    payloadOffset := 2;
    if lengthByte % 128 == 127 {
      ok, len := headerReader.GetNumber(8);
      payloadOffset := payloadOffset + 8;
    } else if lengthByte % 128 == 126 {
      ok, len := headerReader.GetNumber(2);
      payloadOffset := payloadOffset + 2;
    } else {
      len := lengthByte % 128;
    }
    mask := [];
    if masked {
      ok, mask := headerReader.Get(4);
      payloadOffset := payloadOffset + 4;
    }
  }

  /** `getU8`. */
  method GetByte(reader: BitReader) returns (ok: bool, val: byte)
    requires reader.limit == reader.bytes.Length
    modifies reader
    ensures ok == (1 <= old(reader.Available()))
    ensures ok ==> reader.position == old(reader.position) + 1 && val == reader.bytes[old(reader.position)]
    ensures !ok ==> reader.position == old(reader.position)
  {
    var bytes;
    ok, bytes := reader.Get(1);
    val := if ok then bytes[0] else 0;
  }

  /** A masked frame of a length up to the limit that goes on behind the buffer. */
  predicate Overruns(bytes: seq<byte>, limit: nat) {
    |bytes| >= 2 && |bytes| >= 2 + HeaderRest(bytes[1]) && |bytes| >= 2 + LengthWidth(bytes[1])
    && bytes[1] >= 128 && PayloadLength(bytes) <= limit && PayloadOffset(bytes[1]) + PayloadLength(bytes) > |bytes|
  }

  /** `readFrame`. The payload is left unmasked at `start`; bytes after the frame are untouched. The loop that unmasks
      runs past the end of the buffer exactly on such a frame. */
  method ReadFrame(reader: BitReader) returns (ok: bool, flags: byte, start: nat, len: nat, ghost past: bool)
    requires reader.limit == reader.bytes.Length && reader.position <= reader.limit
    modifies reader, reader.bytes
    ensures var read := ReadFrom(old(reader.bytes[reader.position..]), reader.limit);
            && ok == read.Read? && past == Overruns(old(reader.bytes[reader.position..]), reader.limit)
            && (ok ==>
                  && reader.position == old(reader.position) + read.next <= reader.limit
                  && flags == read.flags && start + len <= reader.position
                  && reader.bytes[start..start + len] == read.payload
                  && reader.bytes[reader.position..] == old(reader.bytes[reader.position..])[read.next..])
  {
    hide Masked, PayloadOffset, HeaderRest, PayloadLength, LengthWidth, ReadFrom;
    ghost var rest := reader.bytes[reader.position..];
    var offset, limit := reader.position, reader.limit;
    start, past := 0, false;
    ReadFromFields(rest, limit);
    var payloadOffset, mask;
    ok, flags, len, payloadOffset, mask := ReadHeader(reader);
    if !ok { return; }
    if len > limit {
      ok := false;
      return;
    }
    start := offset + payloadOffset;
    assert reader.bytes[start..] == rest[payloadOffset..];
    ok, past := TakePayload(reader, start, len, mask, rest, payloadOffset);
  }

  /** The first half of `readFrame`: the fields of the header. */
  method ReadHeader(reader: BitReader) returns (ok: bool, flags: byte, len: nat, payloadOffset: nat, mask: seq<byte>)
    requires reader.limit == reader.bytes.Length && reader.position <= reader.limit
    modifies reader
    ensures reader.bytes[..] == old(reader.bytes[..])
    ensures var rest := old(reader.bytes[reader.position..]);
            && ok == (|rest| >= 2 && |rest| >= 2 + HeaderRest(rest[1]))
            && (ok ==>
                  && |rest| >= 2 + LengthWidth(rest[1]) && 2 <= payloadOffset <= |rest|
                  && flags == rest[0] && len == PayloadLength(rest) && payloadOffset == PayloadOffset(rest[1])
                  && (rest[1] >= 128 ==> payloadOffset >= 4)
                  && mask == (if rest[1] >= 128 then rest[payloadOffset - 4..payloadOffset] else []))
  {
    hide PayloadOffset, HeaderRest, PayloadLength, LengthWidth;
    ghost var rest := reader.bytes[reader.position..];
    flags, len, payloadOffset, mask := 0, 0, 0, [];
    var header, masked;
    ok, header := CopyHeader(reader);
    if !ok { return; }
    HeaderHoldsFields(rest[1]);
    SameFields(header[..], rest);
    var skipped := reader.Skip(2);
    flags, masked, len, payloadOffset, mask := ParseHeader(header);
  }

  /** The end of `readFrame`: unmasks the payload if a mask was read, and moves behind it. The bytes from
      `start` on are those of `rest` from `at` on. */
  method TakePayload(reader: BitReader, start: nat, len: nat, mask: seq<byte>, ghost rest: seq<byte>, ghost at: nat)
    returns (ok: bool, ghost past: bool)
    requires reader.limit == reader.bytes.Length && start <= reader.limit
    requires mask == [] || |mask| == 4
    requires at <= |rest| && reader.bytes[start..] == rest[at..]
    modifies reader, reader.bytes
    ensures ok == (at + len <= |rest|) && past == (mask != [] && at + len > |rest|)
    ensures ok ==>
      var body := rest[at..at + len];
      && reader.position == start + len
      && reader.bytes[start..start + len] == (if mask == [] then body else Masked(body, mask))
      && reader.bytes[start + len..] == rest[at + len..]
  {
    hide Masked;
    assert |rest| - at == reader.limit - start;
    Cut(rest, at, len);
    Cut(reader.bytes[..], start, len);
    past := mask != [] && start + len > reader.limit;
    if mask != [] {
      // Past the end of the buffer there is nothing of this view to unmask; the seek below fails then.
      Unmask(reader.bytes, start, if start + len <= reader.limit then len else reader.limit - start, mask);
    }
    ok := reader.Seek(start + len);
  }

  lemma ReadFromFields(rest: seq<byte>, limit: nat)
    ensures (|rest| < 2 || |rest| < 2 + HeaderRest(rest[1])) ==> ReadFrom(rest, limit) == Broken
    ensures |rest| >= 2 && |rest| >= 2 + HeaderRest(rest[1]) && |rest| >= 2 + LengthWidth(rest[1]) ==>
              var len, start := PayloadLength(rest), PayloadOffset(rest[1]);
              if len > limit || start + len > |rest| then ReadFrom(rest, limit) == Broken
              else
                && (rest[1] >= 128 ==> start >= 4)
                && ReadFrom(rest, limit) == Read(rest[0],
                     if rest[1] >= 128 then Masked(rest[start..start + len], rest[start - 4..start]) else rest[start..start + len],
                     start, start + len)
  {
    if |rest| >= 2 { HeaderHoldsFields(rest[1]); }
  }

  lemma SameFields(header: seq<byte>, rest: seq<byte>)
    requires |header| == MAX_HEADER_LENGTH && |rest| >= 2 && |rest| >= 2 + HeaderRest(rest[1])
    requires header[..2 + HeaderRest(rest[1])] == rest[..2 + HeaderRest(rest[1])]
    ensures header[0] == rest[0] && header[1] == rest[1] && PayloadLength(header) == PayloadLength(rest)
    ensures rest[1] >= 128 ==>
              var end := PayloadOffset(rest[1]); header[end - 4..end] == rest[end - 4..end]
  {
    hide Decode, HeaderRest;
    HeaderHoldsFields(rest[1]);
    var n := 2 + HeaderRest(rest[1]);
    assert header[0] == header[..n][0] && header[1] == header[..n][1];
    SameSlice(header, rest, n, 2, 2 + LengthWidth(rest[1]));
    if rest[1] >= 128 {
      SameSlice(header, rest, n, PayloadOffset(rest[1]) - 4, PayloadOffset(rest[1]));
    }
  }

  /** The receive loop of `onSocketRecv`: what it emits, on any buffer. */
  method OnSocketRecv(buffer: array<byte>) returns (emitted: seq<seq<byte>>, ok: bool)
    modifies buffer
    ensures (emitted, ok) == Receive(old(buffer[..]), buffer.Length)
  {
    hide ReadFrom;
    ghost var original := buffer[..];
    emitted, ok := [], true;
    var reader := new BitReader(buffer);
    var total, offset := reader.Available(), reader.position;
    assert buffer[0..] == original;
    while offset < total
      invariant 0 <= offset == reader.position <= total == buffer.Length && ok
      invariant emitted + Receive(buffer[offset..], buffer.Length).0 == Receive(original, buffer.Length).0
      invariant Receive(buffer[offset..], buffer.Length).1 == Receive(original, buffer.Length).1
      decreases total - offset
    {
      ghost var rest, before := buffer[offset..], emitted;
      ghost var read := ReadFrom(rest, buffer.Length);
      var flags, start, len;
      ghost var past;
      ok, flags, start, len, past := ReadFrame(reader);
      if !ok {
        assert before + [] == before;
        return;
      }
      offset := reader.position;
      assert buffer[offset..] == rest[read.next..];
      if len != 0 {
        emitted := emitted + [buffer[start..start + len]];
        assert emitted + Receive(buffer[offset..], buffer.Length).0
            == before + ([read.payload] + Receive(buffer[offset..], buffer.Length).0);
      }
    }
    assert buffer[offset..] == [] && emitted + [] == emitted;
  }
}
