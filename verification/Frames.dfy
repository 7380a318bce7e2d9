/**
 The byte form of a message. The header struct ends in one data byte and padding, so its declared
 size H is larger than the payload offset 24: the payload starts inside the declared header and the
 frame ends H - 24 zero bytes after it.
 */
module Frames {
  import opened Common
  import opened PackedWords

  type byte = b: nat | b < 256

  const PAYLOAD_OFFSET: nat := 24
  const MAX_MESSAGE_LENGTH: nat := 2097152
  const INT_MAX: nat := 0x7fff_ffff
  const SYNC: seq<byte> := [0xFF, 0x61, 0x63, 0x70, 0x6d, 0x73, 0x67, 0xFE]

  // What the compiler fixes: the padded struct size and the byte order.
  datatype Abi = Abi(headerSize: nat, bigEndian: bool) {
    ghost predicate Valid() {
      PAYLOAD_OFFSET < headerSize && headerSize + MAX_MESSAGE_LENGTH <= INT_MAX
    }
  }

  datatype Message = Message(kind: uint32, replyRequired: bool, seqnum: uint32, payload: seq<byte>)

  // A message any constructor can make: a positive type and a payload SetMessage accepts.
  predicate Sendable(m: Message) {
    m.kind > 0 && |m.payload| <= MAX_MESSAGE_LENGTH
  }

  // The low k bytes of n, least significant first.
  function Digits(n: nat, k: nat): (b: seq<byte>)
    ensures |b| == k
  {
    if k == 0 then [] else [n % 256] + Digits(n / 256, k - 1)
  }

  function Number(b: seq<byte>): nat {
    if b == [] then 0 else b[0] + 256 * Number(b[1..])
  }

  function Limit(k: nat): nat {
    if k == 0 then 1 else 256 * Limit(k - 1)
  }

  lemma {:induction false} NumberOfDigits(n: nat, k: nat)
    requires n < Limit(k)
    ensures Number(Digits(n, k)) == n
  {
    if k > 0 {
      NumberOfDigits(n / 256, k - 1);
      assert Digits(n, k)[1..] == Digits(n / 256, k - 1);
    }
  }

  lemma {:induction false} NumberBelowLimit(b: seq<byte>)
    ensures Number(b) < Limit(|b|)
  {
    if b != [] { NumberBelowLimit(b[1..]); }
  }

  function Reversed(b: seq<byte>): (r: seq<byte>)
    ensures |r| == |b|
  {
    if b == [] then [] else Reversed(b[1..]) + [b[0]]
  }

  lemma {:induction false} ReversedTwice(b: seq<byte>)
    ensures Reversed(Reversed(b)) == b
  {
    if b != [] {
      ReversedAppend(Reversed(b[1..]), b[0]);
      ReversedTwice(b[1..]);
    }
  }

  lemma {:induction false} ReversedAppend(b: seq<byte>, x: byte)
    ensures Reversed(b + [x]) == [x] + Reversed(b)
  {
    if b == [] {
      assert [x][1..] == [];
    } else {
      assert (b + [x])[1..] == b[1..] + [x];
      ReversedAppend(b[1..], x);
    }
  }

  // A 32-bit field, and its value, in the byte order of the machine.
  function Bytes32(abi: Abi, n: uint32): (b: seq<byte>)
    ensures |b| == 4
  {
    if abi.bigEndian then Reversed(Digits(n, 4)) else Digits(n, 4)
  }

  function Int32(abi: Abi, b: seq<byte>): uint32
    requires |b| == 4
  {
    NumberBelowLimit(b);
    NumberBelowLimit(Reversed(b));
    assert Limit(4) == W;
    Number(if abi.bigEndian then Reversed(b) else b)
  }

  // The value of a field by its bytes.
  lemma Int32Places(abi: Abi, b: seq<byte>)
    requires |b| == 4
    ensures var b0: nat, b1: nat, b2: nat, b3: nat := b[0], b[1], b[2], b[3];
      Int32(abi, b) ==
        if abi.bigEndian then 16777216 * b0 + 65536 * b1 + 256 * b2 + b3 else b0 + 256 * b1 + 65536 * b2 + 16777216 * b3
  {
    NumberOfFour(b);
    ReversedFour(b);
    NumberOfFour(Reversed(b));
  }

  lemma NumberOfFour(b: seq<byte>)
    requires |b| == 4
    ensures var b0: nat, b1: nat, b2: nat, b3: nat := b[0], b[1], b[2], b[3];
      Number(b) == b0 + 256 * b1 + 65536 * b2 + 16777216 * b3
  {
    var b0: nat, b1: nat, b2: nat, b3: nat := b[0], b[1], b[2], b[3];
    assert b[1..][1..] == b[2..] && b[2..][1..] == b[3..] && b[3..][1..] == [];
    assert Number(b[3..]) == b3 && Number(b[2..]) == b2 + 256 * b3;
    assert Number(b[1..]) == b1 + 256 * Number(b[2..]);
  }

  lemma ReversedFour(b: seq<byte>)
    requires |b| == 4
    ensures Reversed(b) == [b[3], b[2], b[1], b[0]]
  {
    assert b[1..][1..] == b[2..] && b[2..][1..] == b[3..] && b[3..][1..] == [];
    assert Reversed(b[3..]) == [b[3]] && Reversed(b[2..]) == [b[3], b[2]] && Reversed(b[1..]) == [b[3], b[2], b[1]];
  }

  lemma Int32RoundTrip(abi: Abi, n: uint32)
    ensures Int32(abi, Bytes32(abi, n)) == n
  {
    assert Limit(4) == W;
    NumberOfDigits(n, 4);
    ReversedTwice(Digits(n, 4));
  }

  function Zeros(n: nat): (z: seq<byte>)
    ensures |z| == n
  {
    seq(n, _ => 0)
  }

  const REPLY_REQUIRED: uint32 := 1

  function Serialized(abi: Abi, m: Message): (b: seq<byte>)
    requires abi.Valid() && |m.payload| < W
    ensures |b| == abi.headerSize + |m.payload|
  {
    SYNC + Bytes32(abi, m.kind) + Bytes32(abi, if m.replyRequired then REPLY_REQUIRED else 0)
      + Bytes32(abi, m.seqnum) + Bytes32(abi, |m.payload|) + m.payload + Zeros(abi.headerSize - PAYLOAD_OFFSET)
  }

  // --- The header-then-body reader ------------------------------------------------------------

  // GetMessageSize, as an int: a length of 2^31 or more turns negative. None is the exception for type 0.
  function MessageSize(abi: Abi, header: seq<byte>): Option<int>
    requires |header| >= PAYLOAD_OFFSET
  {
    if Int32(abi, header[8..12]) == 0 then None
    else if header[..8] != SYNC then Some(-1)
    else
      var n := Int32(abi, header[20..24]);
      Some(if n <= INT_MAX then n else n - W)
  }

  // The raw constructor, on the header and the body read behind it.
  function FromRaw(abi: Abi, buffer: seq<byte>): Option<Message>
    requires |buffer| >= PAYLOAD_OFFSET && |buffer| >= PAYLOAD_OFFSET + Int32(abi, buffer[20..24])
  {
    var kind := Int32(abi, buffer[8..12]);
    if kind == 0 then None
    else Some(Message(kind, Int32(abi, buffer[12..16]) % 2 == 1, Int32(abi, buffer[16..20]),
                      buffer[PAYLOAD_OFFSET..PAYLOAD_OFFSET + Int32(abi, buffer[20..24])]))
  }

  datatype Received =
    | Got(message: Message)
    | Incomplete    // the stream ended or failed before the announced bytes arrived
    | Refused       // no sync bytes, or a length outside the limit
    | Thrown        // message type 0

  // Reading one message off a stream that delivers every byte: what it gives and how much it takes.
  function ReadFrame(abi: Abi, stream: seq<byte>): (Received, nat)
    requires abi.Valid()
  {
    if |stream| < abi.headerSize then (Incomplete, |stream|)
    else
      var size := MessageSize(abi, stream[..abi.headerSize]);
      if size.None? then (Thrown, abi.headerSize)
      else if size.value < 0 || size.value > MAX_MESSAGE_LENGTH then (Refused, abi.headerSize)
      else if |stream| < abi.headerSize + size.value then (Incomplete, |stream|)
      else
        var n := abi.headerSize + size.value;
        assert stream[..n][20..24] == stream[20..24] == stream[..abi.headerSize][20..24];
        var m := FromRaw(abi, stream[..n]);
        (if m.Some? then Got(m.value) else Thrown, n)
  }

  // How any stream of bytes is read, from the bytes themselves: too short a header, type 0, no sync bytes or a
  // length over the limit, too short a body, or a message.
  lemma ReadFrameMeans(abi: Abi, stream: seq<byte>)
    requires abi.Valid()
    ensures |stream| < abi.headerSize ==> ReadFrame(abi, stream) == (Incomplete, |stream|)
    ensures |stream| >= abi.headerSize ==>
      var kind, size, h := Int32(abi, stream[8..12]), Int32(abi, stream[20..24]), abi.headerSize;
      ReadFrame(abi, stream) ==
        if kind == 0 then (Thrown, h)
        else if stream[..8] != [0xFF, 0x61, 0x63, 0x70, 0x6d, 0x73, 0x67, 0xFE] || size > MAX_MESSAGE_LENGTH then (Refused, h)
        else if |stream| < h + size then (Incomplete, |stream|)
        else
          (Got(Message(kind, Int32(abi, stream[12..16]) % 2 == 1, Int32(abi, stream[16..20]), stream[24..24 + size])), h + size)
  {
    hide Int32;
    var h := abi.headerSize;
    if |stream| >= h {
      PrefixField(stream, h, 0, 8);
      PrefixField(stream, h, 8, 12);
      PrefixField(stream, h, 20, 24);
      var n := h + Int32(abi, stream[20..24]);
      if |stream| >= n {
        PrefixField(stream, n, 8, 12);
        PrefixField(stream, n, 12, 16);
        PrefixField(stream, n, 16, 20);
        PrefixField(stream, n, 20, 24);
        PrefixField(stream, n, 24, 24 + Int32(abi, stream[20..24]));
      }
    }
  }

  // Where the fields of a frame lie, with any bytes behind it.
  lemma FrameFields(abi: Abi, m: Message, rest: seq<byte>)
    requires abi.Valid() && |m.payload| < W
    ensures var b := Serialized(abi, m) + rest;
      && b[..8] == SYNC && b[8..12] == Bytes32(abi, m.kind)
      && b[12..16] == Bytes32(abi, if m.replyRequired then REPLY_REQUIRED else 0)
      && b[16..20] == Bytes32(abi, m.seqnum) && b[20..24] == Bytes32(abi, |m.payload|)
      && b[24..24 + |m.payload|] == m.payload
  {
    hide Bytes32;
  }

  lemma FrameRoundTrip(abi: Abi, m: Message, rest: seq<byte>)
    requires abi.Valid() && Sendable(m)
    ensures ReadFrame(abi, Serialized(abi, m) + rest) == (Got(m), |Serialized(abi, m)|)
  {
    hide Bytes32; hide Int32; hide Serialized;
    var b := Serialized(abi, m) + rest;
    var n := |Serialized(abi, m)|;
    FrameFields(abi, m, rest);
    Int32RoundTrip(abi, m.kind);
    Int32RoundTrip(abi, if m.replyRequired then REPLY_REQUIRED else 0);
    Int32RoundTrip(abi, m.seqnum);
    Int32RoundTrip(abi, |m.payload|);
    PrefixField(b, abi.headerSize, 0, 8);
    PrefixField(b, abi.headerSize, 8, 12);
    PrefixField(b, abi.headerSize, 20, 24);
    PrefixField(b, n, 8, 12);
    PrefixField(b, n, 12, 16);
    PrefixField(b, n, 16, 20);
    PrefixField(b, n, 20, 24);
    PrefixField(b, n, 24, 24 + |m.payload|);
  }

  lemma PrefixField(b: seq<byte>, n: nat, lo: nat, hi: nat)
    requires lo <= hi <= n <= |b|
    ensures b[..n][lo..hi] == b[lo..hi] && (lo == 0 ==> b[..n][..hi] == b[..hi])
  {
  }

  function Stream(abi: Abi, messages: seq<Message>): seq<byte>
    requires abi.Valid() && forall k :: 0 <= k < |messages| ==> Sendable(messages[k])
  {
    if messages == [] then []
    else
      assert Sendable(messages[0]);
      Serialized(abi, messages[0]) + Stream(abi, messages[1..])
  }

  // Reads n messages one after the other, as long as each one arrives.
  function ReadFrames(abi: Abi, stream: seq<byte>, n: nat): (seq<Message>, seq<byte>)
    requires abi.Valid()
  {
    if n == 0 then ([], stream)
    else
      var (r, k) := ReadFrame(abi, stream);
      if !r.Got? || k > |stream| then ([], stream)
      else
        var (later, rest) := ReadFrames(abi, stream[k..], n - 1);
        ([r.message] + later, rest)
  }

  // MAIN RESULT. A stream of frames is read back as exactly the messages written, to the last byte.
  lemma {:induction false} StreamRoundTrip(abi: Abi, messages: seq<Message>, rest: seq<byte>)
    requires abi.Valid() && forall k :: 0 <= k < |messages| ==> Sendable(messages[k])
    ensures ReadFrames(abi, Stream(abi, messages) + rest, |messages|) == (messages, rest)
  {
    hide ReadFrame; hide Serialized;
    if messages == [] {
      assert Stream(abi, messages) + rest == rest;
    } else {
      var frame, later := Serialized(abi, messages[0]), Stream(abi, messages[1..]) + rest;
      var whole := Stream(abi, messages) + rest;
      assert whole == frame + later;
      FrameRoundTrip(abi, messages[0], later);
      assert whole[|frame|..] == later;
      StreamRoundTrip(abi, messages[1..], rest);
      assert messages == [messages[0]] + messages[1..];
    }
  }
}
