/**
 CIgniteMessage and the socket loop under it. A socket moves bytes in pieces of any size and may
 stop or fail at any call; a message either arrives whole and unchanged or is not delivered.
 */
module Messages {
  import opened Common
  import opened PackedWords
  import opened Frames

  datatype Operation = Read | Write

  // The next k bytes of the stream have moved into the buffer at `at`, and nothing else has changed.
  ghost predicate Arrived(in0: seq<byte>, in1: seq<byte>, b0: seq<byte>, b1: seq<byte>, at: nat, k: nat) {
    && k <= |in0| && at + k <= |b0|
    && in1 == in0[k..]
    && b1 == b0[..at] + in0[..k] + b0[at + k..]
  }

  lemma ArrivedInPieces(in0: seq<byte>, in1: seq<byte>, in2: seq<byte>, b0: seq<byte>, b1: seq<byte>, b2: seq<byte>,
                        at: nat, k: nat, j: nat)
    requires Arrived(in0, in1, b0, b1, at, k) && Arrived(in1, in2, b1, b2, at + k, j)
    ensures Arrived(in0, in2, b0, b2, at, k + j)
  {
    assert in0[..k + j] == in0[..k] + in1[..j];
    assert b1[..at + k] == b0[..at] + in0[..k];
    assert b1[at + k + j..] == b0[at + k + j..];
  }

  // k bytes of the buffer from `at` have been written.
  ghost predicate Departed(out0: seq<byte>, out1: seq<byte>, b: seq<byte>, at: nat, k: nat) {
    at + k <= |b| && out1 == out0 + b[at..at + k]
  }

  lemma DepartedInPieces(out0: seq<byte>, out1: seq<byte>, out2: seq<byte>, b: seq<byte>, at: nat, k: nat, j: nat)
    requires Departed(out0, out1, b, at, k) && Departed(out1, out2, b, at + k, j)
    ensures Departed(out0, out2, b, at, k + j)
  {
    assert b[at..at + k + j] == b[at..at + k] + b[at + k..at + k + j];
  }

  lemma NothingMoved(i: seq<byte>, o: seq<byte>, b: seq<byte>, at: nat)
    requires at <= |b|
    ensures Arrived(i, i, b, b, at, 0) && Departed(o, o, b, at, 0)
  {
  }

  /** A connected stream socket. Call k to read or write moves at most `piece(k)` bytes, or returns it if it is not positive. */
  class Socket {
    var incoming: seq<byte>  // every byte the peer will have delivered, not yet read
    var outgoing: seq<byte>  // written so far
    var calls: nat
    const piece: nat -> int
    const ready: bool        // what select answers within the time limit

    constructor (incoming: seq<byte>, piece: nat -> int, ready: bool)
      ensures this.incoming == incoming && outgoing == [] && calls == 0
      ensures this.piece == piece && this.ready == ready
    {
      this.incoming, outgoing, calls := incoming, [], 0;
      this.piece, this.ready := piece, ready;
    }

    // From here on every call moves at least one byte when there is one to move.
    ghost predicate Reliable()
      reads this
    {
      ready && forall k :: k >= calls ==> piece(k) > 0
    }

    method ReadSome(buffer: array<byte>, at: nat, size: nat) returns (n: int)
      requires 0 < size && at + size <= buffer.Length
      modifies this`incoming, this`calls, buffer
      ensures n <= size && calls > old(calls)
      ensures Arrived(old(incoming), incoming, old(buffer[..]), buffer[..], at, if n > 0 then n else 0)
      ensures piece(old(calls)) > 0 && old(incoming) != [] ==> n > 0
    {
      n := piece(calls);
      calls := calls + 1;
      if n > size { n := size; }
      if n > |incoming| { n := |incoming|; }
      if n > 0 {
        forall k | 0 <= k < n {
          buffer[at + k] := incoming[k];
        }
        incoming := incoming[n..];
      }
    }

    method WriteSome(buffer: array<byte>, at: nat, size: nat) returns (n: int)
      requires 0 < size && at + size <= buffer.Length
      modifies this`outgoing, this`calls
      ensures n <= size && calls > old(calls)
      ensures Departed(old(outgoing), outgoing, buffer[..], at, if n > 0 then n else 0)
      ensures piece(old(calls)) > 0 ==> n > 0
    {
      n := piece(calls);
      calls := calls + 1;
      if n > size { n := size; }
      if n > 0 {
        outgoing := outgoing + buffer[at..at + n];
      }
    }
  }

  // The ends of a socket and a buffer, as values.
  datatype Bytes = Bytes(incoming: seq<byte>, outgoing: seq<byte>, buffer: seq<byte>)

  // Between two moments exactly k bytes have moved, at place `at` of the buffer.
  ghost predicate Progress(op: Operation, x: Bytes, y: Bytes, at: nat, k: nat) {
    match op
    case Read => Arrived(x.incoming, y.incoming, x.buffer, y.buffer, at, k) && y.outgoing == x.outgoing
    case Write => Departed(x.outgoing, y.outgoing, x.buffer, at, k) && y.incoming == x.incoming && y.buffer == x.buffer
  }

  lemma ProgressInPieces(op: Operation, x: Bytes, y: Bytes, z: Bytes, at: nat, k: nat, j: nat)
    requires Progress(op, x, y, at, k) && Progress(op, y, z, at + k, j)
    ensures Progress(op, x, z, at, k + j)
  {
    match op
    case Read => ArrivedInPieces(x.incoming, y.incoming, z.incoming, x.buffer, y.buffer, z.buffer, at, k, j);
    case Write => DepartedInPieces(x.outgoing, y.outgoing, z.outgoing, x.buffer, at, k, j);
  }

  lemma NoProgress(op: Operation, x: Bytes, at: nat)
    requires at <= |x.buffer|
    ensures Progress(op, x, x, at, 0)
  {
    NothingMoved(x.incoming, x.outgoing, x.buffer, at);
  }

  lemma LeftToMove(op: Operation, x: Bytes, y: Bytes, at: nat, k: nat)
    requires Progress(op, x, y, at, k)
    ensures |y.buffer| == |x.buffer| && (op.Read? ==> k <= |x.incoming| && |y.incoming| == |x.incoming| - k)
  {
  }

  method MoveSome(socket: Socket, buffer: array<byte>, at: nat, size: nat, op: Operation) returns (n: int)
    requires 0 < size && at + size <= buffer.Length
    modifies socket`incoming, socket`outgoing, socket`calls, buffer
    ensures n <= size && socket.calls > old(socket.calls)
    ensures Progress(op, old(Bytes(socket.incoming, socket.outgoing, buffer[..])),
                     Bytes(socket.incoming, socket.outgoing, buffer[..]), at, if n > 0 then n else 0)
    ensures socket.piece(old(socket.calls)) > 0 && (op.Read? ==> old(socket.incoming) != []) ==> n > 0
  {
    match op {
      case Read => n := socket.ReadSome(buffer, at, size);
      case Write => n := socket.WriteSome(buffer, at, size);
    }
  }

  /**
   Moves exactly `size` bytes and returns that number, or returns -1. Whatever the pieces, the
   bytes that did move are the next ones of the stream, in order.
   */
  method OperateOnSocket(socket: Socket, descriptor: int, buffer: array<byte>, at: nat, size: int, op: Operation)
    returns (result: int, ghost moved: nat)
    requires at <= buffer.Length && at + size <= buffer.Length
    modifies socket`incoming, socket`outgoing, socket`calls, buffer
    ensures socket.calls >= old(socket.calls)
    ensures result == if 0 < size == moved then size else -1
    ensures (moved == 0 || moved <= size) && (descriptor == 0 || !socket.ready ==> moved == 0)
    ensures Progress(op, old(Bytes(socket.incoming, socket.outgoing, buffer[..])),
                     Bytes(socket.incoming, socket.outgoing, buffer[..]), at, moved)
    ensures descriptor == 0 ==> result == -1
    ensures descriptor != 0 && size > 0 && old(socket.Reliable()) && (op.Read? ==> size <= |old(socket.incoming)|)
      ==> result == size
  {
    hide Progress;
    ghost var x := Bytes(socket.incoming, socket.outgoing, buffer[..]);
    NoProgress(op, x, at);
    moved := 0;
    if descriptor == 0 || size <= 0 || !socket.ready {
      return -1, 0;
    }
    var operated := 0;
    while operated < size
      invariant 0 <= operated <= size && moved == operated && socket.calls >= old(socket.calls)
      invariant Progress(op, x, Bytes(socket.incoming, socket.outgoing, buffer[..]), at, operated)
      decreases size - operated
    {
      ghost var y := Bytes(socket.incoming, socket.outgoing, buffer[..]);
      LeftToMove(op, x, y, at, operated);
      var n := MoveSome(socket, buffer, at + operated, size - operated, op);
      ProgressInPieces(op, x, y, Bytes(socket.incoming, socket.outgoing, buffer[..]), at, operated, if n > 0 then n else 0);
      if n <= 0 {
        break;
      }
      operated := operated + n;
      moved := operated;
    }
    result := if operated == size then operated else -1;
  }

  // --- Reading one message ------------------------------------------------------------------------

  // The header has arrived at the front of the buffer: its size field is the one in the stream.
  lemma HeaderArrived(abi: Abi, in0: seq<byte>, in1: seq<byte>, b0: seq<byte>, b1: seq<byte>)
    requires abi.Valid() && Arrived(in0, in1, b0, b1, 0, abi.headerSize)
    ensures |in0| >= abi.headerSize && b1[..abi.headerSize] == in0[..abi.headerSize] && in1 == in0[abi.headerSize..]
  {
  }

  // The body has arrived behind it: together they are the frame, and the payload is cut from offset 24.
  lemma BodyArrived(abi: Abi, in0: seq<byte>, in1: seq<byte>, in2: seq<byte>, b1: seq<byte>, b2: seq<byte>, size: nat)
    requires abi.Valid() && |in0| >= abi.headerSize && |b1| >= abi.headerSize
    requires b1[..abi.headerSize] == in0[..abi.headerSize] && in1 == in0[abi.headerSize..]
    requires Arrived(in1, in2, b1, b2, abi.headerSize, size)
    ensures |in0| >= abi.headerSize + size
    ensures b2[..abi.headerSize + size] == in0[..abi.headerSize + size]
    ensures in2 == in0[abi.headerSize + size..]
  {
    assert in0[..abi.headerSize + size] == in0[..abi.headerSize] + in1[..size];
  }

  lemma SizeField(abi: Abi, stream: seq<byte>)
    requires abi.Valid() && |stream| >= abi.headerSize && MessageSize(abi, stream[..abi.headerSize]).Some?
    requires 0 <= MessageSize(abi, stream[..abi.headerSize]).value <= MAX_MESSAGE_LENGTH
    ensures Int32(abi, stream[20..24]) == MessageSize(abi, stream[..abi.headerSize]).value
  {
    assert stream[..abi.headerSize][20..24] == stream[20..24];
  }

  /**
   The reader in Send: header first, then as many bytes as it announces, into one buffer of the
   maximum size. Either the stream failed, or the outcome and the bytes consumed are those of
   ReadFrame, however the socket cut the stream up.
   */
  method ReadMessage(abi: Abi, socket: Socket, descriptor: int) returns (r: Received)
    requires abi.Valid()
    modifies socket`incoming, socket`outgoing, socket`calls
    ensures socket.outgoing == old(socket.outgoing) && socket.calls >= old(socket.calls)
    ensures r == Incomplete || (r == ReadFrame(abi, old(socket.incoming)).0
      && ReadFrame(abi, old(socket.incoming)).1 <= |old(socket.incoming)|
      && socket.incoming == old(socket.incoming)[ReadFrame(abi, old(socket.incoming)).1..])
    ensures descriptor != 0 && old(socket.Reliable()) ==> r == ReadFrame(abi, old(socket.incoming)).0
  {
    hide Arrived; hide Departed; hide Int32;
    ghost var in0 := socket.incoming;
    var h := abi.headerSize;
    var buffer := new byte[h + MAX_MESSAGE_LENGTH](_ => 0);
    ghost var b0 := buffer[..];
    var got, moved := OperateOnSocket(socket, descriptor, buffer, 0, h, Read);
    if got == -1 {
      return Incomplete;
    }
    HeaderArrived(abi, in0, socket.incoming, b0, buffer[..]);
    var size := MessageSize(abi, buffer[..h]);
    assert buffer[..h] == in0[..h];
    if size.None? {
      return Thrown;
    }
    if size.value < 0 || size.value > MAX_MESSAGE_LENGTH {
      return Refused;
    }
    SizeField(abi, in0);
    ghost var in1, b1 := socket.incoming, buffer[..];
    var body := 0;
    if size.value > 0 {
      body, moved := OperateOnSocket(socket, descriptor, buffer, h, size.value, Read);
      if body == size.value { BodyArrived(abi, in0, in1, socket.incoming, b1, buffer[..], size.value); }
    }
    if body != size.value {
      return Incomplete;
    }
    var frame := buffer[..h + size.value];
    assert frame == in0[..h + size.value];
    assert frame[20..24] == in0[20..24];
    var m := FromRaw(abi, frame);
    r := if m.Some? then Got(m.value) else Thrown;
  }

  // --- Texts ----------------------------------------------------------------------------------------

  // The characters before the first NUL; None when there is none and a C string would run on.
  function UpToNul(b: seq<byte>): Option<seq<byte>> {
    if b == [] then None
    else if b[0] == 0 then Some([])
    else
      var r := UpToNul(b[1..]);
      if r.None? then None else Some([b[0]] + r.value)
  }

  // SetMessage stores a non-empty text with its terminator, and nothing at all for an empty one.
  function TextPayload(text: seq<byte>): seq<byte> {
    if text == [] then [] else text + [0]
  }

  // GetMessageAsString; a null buffer reads as the empty text.
  function TextOf(payload: seq<byte>): Option<seq<byte>> {
    if payload == [] then Some([]) else UpToNul(payload)
  }

  // The text up to its first NUL, or all of it.
  function Visible(text: seq<byte>): seq<byte> {
    if text == [] || text[0] == 0 then [] else [text[0]] + Visible(text[1..])
  }

  lemma {:induction false} VisibleIsWhole(text: seq<byte>)
    ensures 0 !in text <==> Visible(text) == text
    ensures Visible(text) <= text && 0 !in Visible(text)
    ensures |Visible(text)| < |text| ==> text[|Visible(text)|] == 0
  {
    if text != [] {
      assert text == [text[0]] + text[1..];
      if text[0] != 0 { VisibleIsWhole(text[1..]); }
    }
  }

  lemma {:induction false} TerminatedText(text: seq<byte>)
    ensures UpToNul(text + [0]) == Some(Visible(text))
  {
    if text != [] {
      assert (text + [0])[1..] == text[1..] + [0];
      TerminatedText(text[1..]);
    }
  }

  lemma {:induction false} UpToNulMeans(b: seq<byte>)
    ensures UpToNul(b).None? <==> 0 !in b
    ensures UpToNul(b).Some? ==>
      var text := UpToNul(b).value; |text| < |b| && text == b[..|text|] && 0 !in text && b[|text|] == 0
  {
    if b != [] && b[0] != 0 {
      UpToNulMeans(b[1..]);
      assert b == [b[0]] + b[1..];
    }
  }

  // What a payload reads as: up to its first NUL, and nothing defined when it has none.
  lemma TextOfMeans(payload: seq<byte>)
    ensures TextOf(payload).None? <==> payload != [] && 0 !in payload
    ensures TextOf(payload).Some? && payload != [] ==>
      var text := TextOf(payload).value; |text| < |payload| && text == payload[..|text|] && 0 !in text && payload[|text|] == 0
    ensures payload == [] ==> TextOf(payload) == Some([])
  {
    UpToNulMeans(payload);
  }

  // MAIN RESULT. A text set on a message and sent through a frame is read back up to its first NUL.
  lemma TextRoundTrip(abi: Abi, kind: uint32, replyRequired: bool, seqnum: uint32, text: seq<byte>, rest: seq<byte>)
    requires abi.Valid() && kind > 0 && |text| + 1 <= MAX_MESSAGE_LENGTH
    ensures var m := Message(kind, replyRequired, seqnum, TextPayload(text));
      && ReadFrame(abi, Serialized(abi, m) + rest) == (Got(m), |Serialized(abi, m)|)
      && TextOf(m.payload) == Some(Visible(text))
    ensures 0 !in text ==> TextOf(TextPayload(text)) == Some(text)
  {
    FrameRoundTrip(abi, Message(kind, replyRequired, seqnum, TextPayload(text)), rest);
    TerminatedText(text);
    VisibleIsWhole(text);
  }

  // --- The message object -----------------------------------------------------------------------------

  /** The process-wide sequence number, an unsigned 32-bit counter. */
  class Sequence {
    var last: uint32

    constructor ()
      ensures last == 0
    {
      last := 0;
    }

    method Next() returns (n: uint32)
      modifies this
      ensures n == last == (old(last) + 1) % W
    {
      last := (last + 1) % W;
      n := last;
    }
  }

  datatype SendResult =
    | Failed
    | Done                        // written, and no reply was asked for
    | Replied(text: seq<byte>)
    | Overrun                     // a matching reply whose payload has no terminator
    | Raised                      // the exception for message type 0

  class CIgniteMessage {
    const kind: uint32
    const recipient: int
    var seqnum: uint32
    var replyRequired: bool
    var payload: seq<byte>  // empty for a null buffer

    predicate Valid()
      reads this
    {
      kind > 0 && |payload| <= MAX_MESSAGE_LENGTH
    }

    function Value(): Message
      reads this
    {
      Message(kind, replyRequired, seqnum, payload)
    }

    constructor (kind: uint32, recipient: int, seqnum: uint32)
      requires kind > 0
      ensures Valid() && Value() == Message(kind, false, seqnum, []) && this.recipient == recipient
    {
      this.kind, this.recipient, this.seqnum := kind, recipient, seqnum;
      replyRequired, payload := false, [];
    }

    // Null stands for the exception; type 0 does not use up a sequence number.
    static method Create(kind: uint32, recipient: int, sequence: Sequence) returns (m: CIgniteMessage?)
      modifies sequence
      ensures m == null <==> kind == 0
      ensures kind == 0 ==> sequence.last == old(sequence.last)
      ensures m != null ==> fresh(m) && m.Valid() && m.recipient == recipient
      ensures m != null ==> sequence.last == (old(sequence.last) + 1) % W
      ensures m != null ==> m.Value() == Message(kind, false, sequence.last, [])
    {
      if kind == 0 {
        return null;
      }
      var n := sequence.Next();
      m := new CIgniteMessage(kind, recipient, n);
    }

    method SetMessage(text: seq<byte>) returns (ret: int)
      requires Valid()
      modifies this`payload
      ensures Valid() && ret == if |text| + 1 <= MAX_MESSAGE_LENGTH then 0 else -1
      ensures payload == if ret == 0 then TextPayload(text) else old(payload)
      ensures payload == if |text| >= MAX_MESSAGE_LENGTH then old(payload) else if text == [] then [] else text + [0]
    {
      if |text| + 1 <= MAX_MESSAGE_LENGTH {
        if |text| > 0 {
          payload := text + [0];
        } else {
          payload := [];
        }
        return 0;
      }
      return -1;
    }

    method SetRawMessage(bytes: seq<byte>) returns (ret: int)
      requires Valid()
      modifies this`payload
      ensures Valid() && ret == if |bytes| <= MAX_MESSAGE_LENGTH then 0 else -1
      ensures payload == if ret == 0 then bytes else old(payload)
    {
      if |bytes| <= MAX_MESSAGE_LENGTH {
        payload := bytes;
        return 0;
      }
      return -1;
    }

    // A zeroed buffer with the header fields and the payload copied into their places.
    method Serialize(abi: Abi) returns (buffer: array<byte>)
      requires Valid() && abi.Valid()
      ensures fresh(buffer) && buffer[..] == Serialized(abi, Value())
    {
      hide Bytes32; hide Pasted; hide Serialized;
      var n := abi.headerSize + |payload|;
      buffer := new byte[n](_ => 0);
      assert buffer[..] == Zeros(n);
      CopyInto(buffer, 0, SYNC);
      CopyInto(buffer, 8, Bytes32(abi, kind));
      CopyInto(buffer, 12, Bytes32(abi, 0));
      if replyRequired {
        CopyInto(buffer, 12, Bytes32(abi, REPLY_REQUIRED));
      }
      PastedTwice(Pasted(Pasted(Zeros(n), 0, SYNC), 8, Bytes32(abi, kind)), 12, Bytes32(abi, 0), Bytes32(abi, REPLY_REQUIRED));
      CopyInto(buffer, 20, Bytes32(abi, |payload|));
      CopyInto(buffer, 16, Bytes32(abi, seqnum));
      CopyInto(buffer, PAYLOAD_OFFSET, payload);
      PastedFrame(abi, Value());
    }

    /**
     Sends the frame and, when asked to, takes the next message off the stream as the reply if its
     sequence number matches. `alive` is what getsockopt answers. Descriptor 0 passes the
     connection test but the socket loop refuses it.
     */
    method Send(abi: Abi, socket: Socket, alive: bool, wantReply: bool) returns (result: SendResult)
      requires Valid() && abi.Valid()
      modifies this`replyRequired, socket`incoming, socket`outgoing, socket`calls
      ensures Valid() && Value() == old(Value()).(replyRequired := replyRequired)
      ensures socket.calls >= old(socket.calls)
      ensures recipient <= 0 || !alive ==> result == Failed && socket.outgoing == old(socket.outgoing)
      ensures replyRequired == if recipient >= 0 && alive then wantReply else old(replyRequired)
      ensures old(socket.outgoing) <= socket.outgoing <= old(socket.outgoing) + Serialized(abi, Value())
      ensures result != Failed ==> socket.outgoing == old(socket.outgoing) + Serialized(abi, Value())
      ensures result == Done ==> !wantReply && socket.incoming == old(socket.incoming)
      ensures !wantReply ==> result == Done || result == Failed
      ensures !wantReply && recipient > 0 && alive ==>
        (result == Done <==> socket.outgoing == old(socket.outgoing) + Serialized(abi, Value()))
      ensures result == Raised ==> wantReply && ReplyIn(abi, seqnum, old(socket.incoming)) == Raised
      ensures result.Replied? || result.Overrun? ==> wantReply && Answered(abi, seqnum, old(socket.incoming), socket.incoming, result)
      ensures old(socket.Reliable()) && alive && recipient > 0 ==>
        socket.outgoing == old(socket.outgoing) + Serialized(abi, Value())
      ensures old(socket.Reliable()) && alive && recipient > 0 && !wantReply ==> result == Done
      ensures old(socket.Reliable()) && alive && recipient > 0 && wantReply ==>
        result == ReplyIn(abi, seqnum, old(socket.incoming))
    {
      hide Serialized; hide ReadFrame;
      if recipient < 0 || !alive {
        return Failed;
      }
      replyRequired := wantReply;
      var frame := Serialize(abi);
      var written, moved := OperateOnSocket(socket, recipient, frame, 0, frame.Length, Write);
      assert frame[0..frame.Length] == frame[..];
      assert frame[0..moved] <= frame[..];
      if written == -1 {
        assert moved == 0 ==> frame[0..moved] == [];
        return Failed;
      }
      if !wantReply {
        return Done;
      }
      var r := ReadMessage(abi, socket, recipient);
      result := Outcome(seqnum, r);
    }

    /** The reply to this message: a new message that takes over its type and its sequence number. */
    method Reply(abi: Abi, socket: Socket, alive: bool, sequence: Sequence, text: seq<byte>) returns (result: SendResult)
      requires Valid() && abi.Valid()
      modifies sequence, socket`incoming, socket`outgoing, socket`calls
      ensures !replyRequired || recipient < 0 ==>
        result == Failed && socket.outgoing == old(socket.outgoing) && sequence.last == old(sequence.last)
      ensures replyRequired && recipient >= 0 ==> sequence.last == (old(sequence.last) + 1) % W
      ensures result == Failed || result == Done
      ensures result == Done ==> socket.outgoing == old(socket.outgoing) + Serialized(abi, ReplyTo(Value(), text))
      ensures result == Done ==>
        old(socket.outgoing) <= socket.outgoing && IsReply(abi, Value(), text, socket.outgoing[|old(socket.outgoing)|..])
      ensures old(socket.Reliable()) && alive && recipient > 0 && replyRequired ==> result == Done
    {
      if !replyRequired || recipient < 0 {
        return Failed;
      }
      var n := sequence.Next();
      var reply := new CIgniteMessage(kind, recipient, n);
      reply.seqnum := seqnum;
      var ret := reply.SetMessage(text);
      result := reply.Send(abi, socket, alive, false);
      if result == Done {
        ReplyIsRead(abi, Value(), text);
        assert socket.outgoing[|old(socket.outgoing)|..] == Serialized(abi, ReplyTo(Value(), text));
      }
    }
  }

  // What a server answers: the request's type and sequence number, no reply wanted, and the text if it fits.
  function ReplyTo(request: Message, text: seq<byte>): Message {
    Message(request.kind, false, request.seqnum, if |text| + 1 <= MAX_MESSAGE_LENGTH then TextPayload(text) else [])
  }

  // These bytes are read as one message: the request's type and number, no reply wanted, and the text up to its
  // first NUL, or no payload at all when the text is too long.
  ghost predicate IsReply(abi: Abi, request: Message, text: seq<byte>, bytes: seq<byte>)
    requires abi.Valid()
  {
    var (r, n) := ReadFrame(abi, bytes);
    && r.Got? && n == |bytes|
    && r.message.kind == request.kind && r.message.seqnum == request.seqnum && !r.message.replyRequired
    && if |text| < MAX_MESSAGE_LENGTH then TextOf(r.message.payload) == Some(Visible(text)) else r.message.payload == []
  }

  lemma ReplyIsRead(abi: Abi, request: Message, text: seq<byte>)
    requires abi.Valid() && request.kind > 0
    ensures IsReply(abi, request, text, Serialized(abi, ReplyTo(request, text)))
  {
    hide Serialized; hide ReadFrame;
    var reply := ReplyTo(request, text);
    FrameRoundTrip(abi, reply, []);
    assert Serialized(abi, reply) + [] == Serialized(abi, reply);
    TerminatedText(text);
  }

  // How Send judges what it read while waiting for the reply to number `seqnum`.
  function Outcome(seqnum: uint32, r: Received): SendResult {
    match r
    case Got(m) =>
      if m.seqnum != seqnum then Failed
      else if TextOf(m.payload).None? then Overrun
      else Replied(TextOf(m.payload).value)
    case Thrown => Raised
    case _ => Failed
  }

  function ReplyIn(abi: Abi, seqnum: uint32, stream: seq<byte>): SendResult
    requires abi.Valid()
  {
    Outcome(seqnum, ReadFrame(abi, stream).0)
  }

  // The result comes from the first frame of the stream, whose bytes have been consumed.
  ghost predicate Answered(abi: Abi, seqnum: uint32, in0: seq<byte>, in1: seq<byte>, result: SendResult)
    requires abi.Valid()
  {
    var (r, k) := ReadFrame(abi, in0);
    r.Got? && r.message.seqnum == seqnum && k <= |in0| && in1 == in0[k..] && result == Outcome(seqnum, r)
  }

  // What waiting for a reply comes to, by what is read first: only type 0 raises, and every message with another
  // number, every refusal and every early end is a failure.
  lemma ReplyInMeans(abi: Abi, seqnum: uint32, stream: seq<byte>)
    requires abi.Valid()
    ensures ReplyIn(abi, seqnum, stream) == Raised <==> |stream| >= abi.headerSize && Int32(abi, stream[8..12]) == 0
    ensures var r := ReadFrame(abi, stream).0;
      && (r.Got? && r.message.seqnum == seqnum ==>
            ReplyIn(abi, seqnum, stream)
              == (if TextOf(r.message.payload).Some? then Replied(TextOf(r.message.payload).value) else Overrun))
      && (r.Got? && r.message.seqnum != seqnum ==> ReplyIn(abi, seqnum, stream) == Failed)
      && (r == Incomplete || r == Refused ==> ReplyIn(abi, seqnum, stream) == Failed)
  {
    ReadFrameMeans(abi, stream);
    hide Int32; hide ReadFrame;
  }

  // MAIN RESULT. A request answered by the server's reply gets back exactly the text the server replied with.
  lemma ReplyReachesRequest(abi: Abi, request: Message, text: seq<byte>, rest: seq<byte>)
    requires abi.Valid() && Sendable(request) && |text| + 1 <= MAX_MESSAGE_LENGTH
    ensures ReadFrame(abi, Serialized(abi, request) + rest).0 == Got(request)
    ensures ReplyIn(abi, request.seqnum, Serialized(abi, ReplyTo(request, text)) + rest) == Replied(Visible(text))
  {
    FrameRoundTrip(abi, request, rest);
    TextRoundTrip(abi, request.kind, false, request.seqnum, text, rest);
  }

  lemma {:induction false} StreamGrows(abi: Abi, messages: seq<Message>, m: Message)
    requires abi.Valid() && Sendable(m) && forall k :: 0 <= k < |messages| ==> Sendable(messages[k])
    ensures Stream(abi, messages + [m]) == Stream(abi, messages) + Serialized(abi, m)
  {
    hide Serialized;
    if messages == [] {
      assert [m][1..] == [] && messages + [m] == [m];
      assert Serialized(abi, m) + [] == Serialized(abi, m) == [] + Serialized(abi, m);
    } else {
      assert (messages + [m])[1..] == messages[1..] + [m];
      StreamGrows(abi, messages[1..], m);
    }
  }

  /**
   MAIN RESULT. Writer, chunking and reader joined: messages sent one after the other over a socket that
   takes bytes in pieces of any size, and read from one that delivers them in other pieces, arrive as
   exactly those messages, and no byte is left over.
   */
  method SendAndRead(abi: Abi, messages: seq<Message>, written: nat -> int, delivered: nat -> int)
    returns (received: seq<Message>, left: seq<byte>)
    requires abi.Valid() && forall k :: 0 <= k < |messages| ==> Sendable(messages[k])
    requires forall k :: written(k) > 0 && delivered(k) > 0
    ensures received == messages && left == []
  {
    hide Serialized; hide ReadFrame;
    var writer := new Socket([], written, true);
    for i := 0 to |messages|
      invariant writer.piece == written && writer.ready
      invariant writer.outgoing == Stream(abi, messages[..i])
    {
      var m := messages[i];
      var message := new CIgniteMessage(m.kind, 1, m.seqnum);
      var ret := message.SetRawMessage(m.payload);
      var result := message.Send(abi, writer, true, m.replyRequired);
      assert message.Value() == m;
      StreamGrows(abi, messages[..i], m);
      assert messages[..i + 1] == messages[..i] + [m];
    }
    assert messages[..|messages|] == messages;
    var reader := new Socket(writer.outgoing, delivered, true);
    received := [];
    for i := 0 to |messages|
      invariant reader.piece == delivered && reader.ready
      invariant received == messages[..i] && reader.incoming == Stream(abi, messages[i..])
    {
      FrameRoundTrip(abi, messages[i], Stream(abi, messages[i + 1..]));
      assert messages[i..][0] == messages[i] && messages[i..][1..] == messages[i + 1..];
      var frame := Serialized(abi, messages[i]);
      assert (frame + Stream(abi, messages[i + 1..]))[|frame|..] == Stream(abi, messages[i + 1..]);
      var r := ReadMessage(abi, reader, 1);
      received := received + [r.message];
    }
    left := reader.incoming;
  }

  /**
   One request and its reply over sockets that move bytes in pieces of any size: the server reads the frame
   the client writes and replies to it, and the client gets the server's text. The server's half comes first
   because the client's one call both writes its frame and reads the reply; `wire` is what the client wrote.
   */
  method Exchange(abi: Abi, request: CIgniteMessage, text: seq<byte>, toServer: nat -> int, toClient: nat -> int)
    returns (result: SendResult, received: Received, wire: seq<byte>, reply: seq<byte>)
    requires abi.Valid() && request.Valid() && request.recipient > 0 && |text| + 1 <= MAX_MESSAGE_LENGTH
    requires forall k :: toServer(k) > 0 && toClient(k) > 0
    modifies request
    ensures request.Value() == old(request.Value()).(replyRequired := true)
    ensures wire == Serialized(abi, request.Value()) && received == Got(request.Value())
    ensures IsReply(abi, request.Value(), text, reply) && result == Replied(Visible(text))
  {
    hide Serialized; hide ReadFrame; hide Visible; hide IsReply;
    ghost var asked := request.Value().(replyRequired := true);
    var expected := Serialized(abi, Message(request.kind, true, request.seqnum, request.payload));
    var server := new Socket(expected, toServer, true);
    ReplyReachesRequest(abi, asked, text, []);
    assert expected + [] == expected;
    received := ReadMessage(abi, server, 1);
    var m := received.message;
    var got := new CIgniteMessage(m.kind, 1, m.seqnum);
    got.replyRequired := m.replyRequired;
    var ret := got.SetRawMessage(m.payload);
    assert got.Value() == asked;
    var sequence := new Sequence();
    var replied := got.Reply(abi, server, true, sequence, text);
    assert server.outgoing == Serialized(abi, ReplyTo(asked, text)) + [];
    reply := server.outgoing;
    assert reply[0..] == reply;
    var client := new Socket(server.outgoing, toClient, true);
    result := request.Send(abi, client, true, true);
    wire := client.outgoing;
  }

  // The buffer after a memcpy of x to `at`.
  function Pasted(b: seq<byte>, at: nat, x: seq<byte>): seq<byte>
    requires at + |x| <= |b|
  {
    b[..at] + x + b[at + |x|..]
  }

  lemma PastedTwice(b: seq<byte>, at: nat, x: seq<byte>, y: seq<byte>)
    requires at + |x| <= |b| && |y| == |x|
    ensures Pasted(Pasted(b, at, x), at, y) == Pasted(b, at, y)
  {
  }

  lemma PastedMiddle(a: seq<byte>, old_: seq<byte>, c: seq<byte>, x: seq<byte>)
    requires |x| == |old_|
    ensures Pasted(a + old_ + c, |a|, x) == a + x + c
  {
  }

  lemma ZerosSplit(k: nat, n: nat)
    requires k <= n
    ensures Zeros(n) == Zeros(k) + Zeros(n - k)
  {
  }

  // The next field pasted over the zeros behind what is already there.
  lemma PastedNext(a: seq<byte>, n: nat, x: seq<byte>)
    requires |x| <= n
    ensures Pasted(a + Zeros(n), |a|, x) == a + x + Zeros(n - |x|)
  {
    ZerosSplit(|x|, n);
    assert a + Zeros(n) == a + Zeros(|x|) + Zeros(n - |x|);
    PastedMiddle(a, Zeros(|x|), Zeros(n - |x|), x);
  }

  // The fields pasted into a zeroed buffer, the length before the sequence number, make the frame.
  lemma PastedFrame(abi: Abi, m: Message)
    requires abi.Valid() && |m.payload| < W
    ensures var n := abi.headerSize + |m.payload|;
      var b := Pasted(Pasted(Pasted(Zeros(n), 0, SYNC), 8, Bytes32(abi, m.kind)), 12,
                      Bytes32(abi, if m.replyRequired then REPLY_REQUIRED else 0));
      Pasted(Pasted(Pasted(b, 20, Bytes32(abi, |m.payload|)), 16, Bytes32(abi, m.seqnum)), PAYLOAD_OFFSET, m.payload)
        == Serialized(abi, m)
  {
    hide Bytes32; hide Zeros; hide Pasted;
    var n := abi.headerSize + |m.payload|;
    var kind, flags := Bytes32(abi, m.kind), Bytes32(abi, if m.replyRequired then REPLY_REQUIRED else 0);
    var seqnum, size := Bytes32(abi, m.seqnum), Bytes32(abi, |m.payload|);
    assert [] + Zeros(n) == Zeros(n) && [] + SYNC == SYNC;
    PastedNext([], n, SYNC);
    PastedNext(SYNC, n - 8, kind);
    PastedNext(SYNC + kind, n - 12, flags);
    var front := SYNC + kind + flags;
    ZerosSplit(4, n - 16);
    assert front + Zeros(n - 16) == front + Zeros(4) + Zeros(n - 20);
    PastedNext(front + Zeros(4), n - 20, size);
    assert front + Zeros(4) + size + Zeros(n - 24) == front + Zeros(4) + (size + Zeros(n - 24));
    PastedMiddle(front, Zeros(4), size + Zeros(n - 24), seqnum);
    assert front + seqnum + (size + Zeros(n - 24)) == front + seqnum + size + Zeros(n - 24);
    PastedNext(front + seqnum + size, n - 24, m.payload);
  }

  // memcpy
  method CopyInto(buffer: array<byte>, at: nat, bytes: seq<byte>)
    requires at + |bytes| <= buffer.Length
    modifies buffer
    ensures buffer[..] == Pasted(old(buffer[..]), at, bytes)
  {
    for k := 0 to |bytes|
      invariant forall i :: 0 <= i < buffer.Length ==>
        buffer[i] == if at <= i < at + k then bytes[i - at] else old(buffer[i])
    {
      buffer[at + k] := bytes[k];
    }
  }
}
