/**
 One client and one server over a stream on which frames arrive whole or not at all. The client
 waits for one reply at a time and may give up; a late reply stays in the stream.
 */
module RequestReply {
  import opened Common
  import opened PackedWords
  import opened Frames
  import opened Messages

  // A frame on its way to the server, and the number of the request it carries.
  datatype Sent = Sent(message: Message, request: nat)

  // A frame on its way back, the request it was made for and the text the server gave. No step reads the last two.
  datatype Answer = Answer(message: Message, request: nat, text: seq<byte>)

  datatype Accepted = Accepted(request: nat, answer: Answer)

  datatype State = State(
    counter: uint32,            // the sequence counter of the client process
    created: nat,               // how many messages that process has constructed
    requests: seq<Message>,     // the messages the client sends, as constructed and in that order
    ordinals: seq<nat>,         // and which construction each one was
    toServer: seq<Sent>,
    inbox: seq<Sent>,
    toClient: seq<Answer>,
    waiting: Option<nat>,
    accepted: seq<Accepted>)

  datatype Step =
    | Request(kind: uint32, replyRequired: bool, payload: seq<byte>, delivered: bool)
    | Resend(request: nat, replyRequired: bool, delivered: bool)
    | OtherMessage                                          // any other construction in the client process
    | ServerReceive
    | ServerReply(index: nat, text: seq<byte>, delivered: bool)
    | ClientRead
    | ClientTimeout

  const START := State(0, 0, [], [], [], [], [], None, [])

  // Put request k on the wire, with the flag of this call; the client waits only for a frame that was written
  // and wants a reply.
  function Transmitted(s: State, k: nat, replyRequired: bool, delivered: bool): State
    requires k < |s.requests|
  {
    if !delivered then s
    else s.(toServer := s.toServer + [Sent(s.requests[k].(replyRequired := replyRequired), k)],
            waiting := if replyRequired then Some(k) else None)
  }

  function Apply(s: State, step: Step): Option<State> {
    match step
    case Request(kind, replyRequired, payload, delivered) =>
      if s.waiting.Some? || kind == 0 || |payload| > MAX_MESSAGE_LENGTH then None
      else
        var n := (s.counter + 1) % W;
        var s' := s.(counter := n, created := s.created + 1,
                     requests := s.requests + [Message(kind, false, n, payload)],
                     ordinals := s.ordinals + [s.created + 1]);
        Some(Transmitted(s', |s.requests|, replyRequired, delivered))
    case Resend(k, replyRequired, delivered) =>
      if s.waiting.Some? || k >= |s.requests| then None else Some(Transmitted(s, k, replyRequired, delivered))
    case OtherMessage => Some(s.(counter := (s.counter + 1) % W, created := s.created + 1))
    case ServerReceive =>
      if s.toServer == [] then None
      else Some(s.(toServer := s.toServer[1..], inbox := s.inbox + [s.toServer[0]]))
    case ServerReply(i, text, delivered) =>
      if i >= |s.inbox| || !s.inbox[i].message.replyRequired then None
      else if !delivered then Some(s)
      else Some(s.(toClient := s.toClient + [Answer(ReplyTo(s.inbox[i].message, text), s.inbox[i].request, text)]))
    case ClientRead =>
      if s.waiting.None? || s.waiting.value >= |s.requests| || s.toClient == [] then None
      else
        var k, a := s.waiting.value, s.toClient[0];
        var s' := s.(waiting := None, toClient := s.toClient[1..]);
        Some(if a.message.seqnum == s.requests[k].seqnum then s'.(accepted := s.accepted + [Accepted(k, a)]) else s')
    case ClientTimeout => Some(s.(waiting := None))
  }

  function RunFrom(s: State, steps: seq<Step>): Option<State> {
    if steps == [] then Some(s)
    else
      var before := RunFrom(s, steps[..|steps| - 1]);
      if before.None? then None else Apply(before.value, steps[|steps| - 1])
  }

  ghost predicate Inv(s: State) {
    && Numbered(s)
    && (forall f :: f in s.toServer || f in s.inbox ==> Carries(s, f))
    && (forall a :: a in s.toClient ==> Genuine(s, a))
    && (s.waiting.Some? ==> s.waiting.value < |s.requests|)
  }

  // Request i was construction number ordinals[i], and its sequence number is that number modulo 2^32.
  ghost predicate Numbered(s: State) {
    && |s.ordinals| == |s.requests|
    && s.counter == s.created % W
    && (forall i, j :: 0 <= i < j < |s.ordinals| ==> s.ordinals[i] < s.ordinals[j])
    && (forall i :: 0 <= i < |s.ordinals| ==>
          0 < s.ordinals[i] <= s.created && s.requests[i].seqnum == s.ordinals[i] % W)
  }

  ghost predicate Carries(s: State, f: Sent) {
    f.request < |s.requests| && f.message == s.requests[f.request].(replyRequired := f.message.replyRequired)
  }

  // The frame is what the server replies to that request.
  ghost predicate Genuine(s: State, a: Answer) {
    a.request < |s.requests| && a.message == ReplyTo(s.requests[a.request], a.text)
  }

  // Every accepted reply was made for the request that accepted it.
  ghost predicate RepliesMatch(s: State) {
    forall k :: 0 <= k < |s.accepted| ==>
      s.accepted[k].answer.request == s.accepted[k].request && Genuine(s, s.accepted[k].answer)
  }

  // Up to 2^32 constructions give every request its own sequence number.
  lemma SeqnumsDistinct(s: State, i: nat, j: nat)
    requires Inv(s) && s.created <= W && i < |s.requests| && j < |s.requests|
    requires s.requests[i].seqnum == s.requests[j].seqnum
    ensures i == j
  {
    var a, b := s.ordinals[i], s.ordinals[j];
    assert a % W == b % W && 0 < a <= W && 0 < b <= W;
  }

  lemma StepKeepsNumbers(s: State, step: Step)
    requires Numbered(s) && Apply(s, step).Some?
    ensures Numbered(Apply(s, step).value)
    ensures s.requests <= Apply(s, step).value.requests && s.created <= Apply(s, step).value.created
  {
    hide ReplyTo;
    ModAdd(s.created, 1);
    if !step.Request? { assert Apply(s, step).value.requests == s.requests; }
  }

  lemma ReplyIgnoresFlag(request: Message, flag: bool, text: seq<byte>)
    ensures ReplyTo(request.(replyRequired := flag), text) == ReplyTo(request, text)
  {
  }

  lemma StepKeepsInv(s: State, step: Step)
    requires Inv(s) && Apply(s, step).Some?
    ensures Inv(Apply(s, step).value)
    ensures s.requests <= Apply(s, step).value.requests && s.created <= Apply(s, step).value.created
  {
    hide Numbered; hide ReplyTo;
    var s' := Apply(s, step).value;
    StepKeepsNumbers(s, step);
    match step
    case Request(_, _, _, _) =>
      assert forall f :: Carries(s, f) ==> Carries(s', f);
      assert forall a :: Genuine(s, a) ==> Genuine(s', a);
      assert forall f :: f in s'.toServer ==> f in s.toServer || Carries(s', f);
    case Resend(k, _, _) => assert forall f :: f in s'.toServer ==> f in s.toServer || Carries(s', f);
    case ServerReply(i, text, _) =>
      assert s.inbox[i] in s.inbox;
      ReplyIgnoresFlag(s.requests[s.inbox[i].request], s.inbox[i].message.replyRequired, text);
      assert forall a :: a in s'.toClient ==> a in s.toClient || Genuine(s', a);
    case ServerReceive =>
      assert forall f :: f in s'.toServer || f in s'.inbox ==> f in s.toServer || f in s.inbox;
      assert forall f :: Carries(s, f) ==> Carries(s', f);
      assert forall a :: Genuine(s, a) ==> Genuine(s', a);
    case OtherMessage =>
      assert forall f :: Carries(s, f) ==> Carries(s', f);
      assert forall a :: Genuine(s, a) ==> Genuine(s', a);
    case ClientRead =>
      assert forall a :: a in s'.toClient ==> a in s.toClient;
      assert forall f :: Carries(s, f) ==> Carries(s', f);
      assert forall a :: Genuine(s, a) ==> Genuine(s', a);
    case ClientTimeout =>
      assert forall f :: Carries(s, f) ==> Carries(s', f);
      assert forall a :: Genuine(s, a) ==> Genuine(s', a);
  }

  lemma StepKeepsMatch(s: State, step: Step)
    requires Inv(s) && RepliesMatch(s) && Apply(s, step).Some? && Apply(s, step).value.created <= W
    ensures RepliesMatch(Apply(s, step).value)
  {
    StepKeepsInv(s, step);
    if step.ClientRead? {
      var k, a := s.waiting.value, s.toClient[0];
      assert Genuine(s, a);
      if a.message.seqnum == s.requests[k].seqnum { SeqnumsDistinct(s, k, a.request); }
    }
  }

  // MAIN RESULT. While at most 2^32 messages have been constructed, a reply that Send accepts is the server's
  // reply to that very request, however many earlier replies were late or lost.
  lemma {:induction false} AcceptedRepliesMatch(steps: seq<Step>)
    requires RunFrom(START, steps).Some? && RunFrom(START, steps).value.created <= W
    ensures Inv(RunFrom(START, steps).value) && RepliesMatch(RunFrom(START, steps).value)
  {
    RunKeepsInv(steps);
    if steps != [] {
      var earlier := steps[..|steps| - 1];
      RunKeepsInv(earlier);
      StepKeepsInv(RunFrom(START, earlier).value, steps[|steps| - 1]);
      AcceptedRepliesMatch(earlier);
      StepKeepsMatch(RunFrom(START, earlier).value, steps[|steps| - 1]);
    }
  }

  lemma {:induction false} RunKeepsInv(steps: seq<Step>)
    requires RunFrom(START, steps).Some?
    ensures Inv(RunFrom(START, steps).value)
  {
    if steps != [] {
      RunKeepsInv(steps[..|steps| - 1]);
      StepKeepsInv(RunFrom(START, steps[..|steps| - 1]).value, steps[|steps| - 1]);
    }
  }

  // A request that is answered at once is accepted, with the answer that was made for it, when nothing is on its way.
  lemma PromptReplyIsAccepted(s: State, kind: uint32, payload: seq<byte>, text: seq<byte>)
    requires s.waiting.None? && s.toServer == [] && s.toClient == [] && kind > 0 && |payload| <= MAX_MESSAGE_LENGTH
    ensures var end := RunFrom(s, [Request(kind, true, payload, true), ServerReceive, ServerReply(|s.inbox|, text, true), ClientRead]);
      && end.Some? && end.value.waiting.None? && end.value.toServer == [] && end.value.toClient == []
      && |end.value.accepted| == |s.accepted| + 1
      && var last := end.value.accepted[|s.accepted|];
      && last.request == last.answer.request == |s.requests| && last.answer.text == text
      && last.answer.message.kind == kind && last.answer.message.seqnum == (s.counter + 1) % W
  {
    hide RunFrom;
    var a := [Request(kind, true, payload, true), ServerReceive, ServerReply(|s.inbox|, text, true), ClientRead];
    RunStep(s, a, 0);
    RunStep(s, a, 1);
    RunStep(s, a, 2);
    RunStep(s, a, 3);
    assert a[..4] == a;
  }

  lemma RunStep(s: State, a: seq<Step>, n: nat)
    requires n < |a|
    ensures RunFrom(s, a[..0]) == Some(s)
    ensures RunFrom(s, a[..n]).Some? ==> RunFrom(s, a[..n + 1]) == Apply(RunFrom(s, a[..n]).value, a[n])
  {
    hide Apply;
    assert a[..n + 1][..n] == a[..n];
  }

  // --- The bound is exact ---------------------------------------------------------------------------

  function Others(n: nat): seq<Step> {
    seq(n, _ => OtherMessage)
  }

  lemma {:induction false} OthersOnlyCount(s: State, n: nat)
    requires s.counter == s.created % W
    ensures RunFrom(s, Others(n)) == Some(s.(counter := (s.created + n) % W, created := s.created + n))
  {
    if n > 0 {
      assert Others(n)[..n - 1] == Others(n - 1);
      OthersOnlyCount(s, n - 1);
      ModAdd(s.created + n - 1, 1);
    }
  }

  lemma {:induction false} RunsCompose(s: State, a: seq<Step>, b: seq<Step>)
    requires RunFrom(s, a).Some?
    ensures RunFrom(s, a + b) == RunFrom(RunFrom(s, a).value, b)
  {
    if b == [] {
      assert a + b == a;
    } else {
      assert (a + b)[..|a + b| - 1] == a + b[..|b| - 1];
      RunsCompose(s, a, b[..|b| - 1]);
    }
  }

  // After a first request whose reply came too late: that reply is still in the stream.
  function AfterLateReply(x: seq<byte>): State {
    var first := Message(1, false, 1, x);
    State(1, 1, [first], [1], [], [Sent(first.(replyRequired := true), 0)], [Answer(ReplyTo(first, x), 0, x)], None, [])
  }

  function LateReply(x: seq<byte>): seq<Step> {
    [Request(1, true, x, true), ServerReceive, ServerReply(0, x, true), ClientTimeout]
  }

  lemma LateReplyRun(x: seq<byte>)
    requires |x| <= MAX_MESSAGE_LENGTH
    ensures RunFrom(START, LateReply(x)) == Some(AfterLateReply(x))
  {
    hide ReplyTo; hide RunFrom;
    var first, a, s := Message(1, false, 1, x), LateReply(x), AfterLateReply(x);
    var frame := Sent(first.(replyRequired := true), 0);
    var s1 := State(1, 1, [first], [1], [frame], [], [], Some(0), []);
    var s2 := s1.(toServer := [], inbox := [frame]);
    assert [] + [first] == [first] && [] + [1] == [1] && [] + [frame] == [frame];
    assert Apply(START, a[0]) == Some(s1);
    assert [frame][1..] == [];
    assert Apply(s1, a[1]) == Some(s2);
    ReplyIgnoresFlag(first, true, x);
    assert [] + s.toClient == s.toClient;
    assert Apply(s2, a[2]) == Some(s.(waiting := Some(0)));
    assert Apply(s.(waiting := Some(0)), a[3]) == Some(s);
    FourSteps(START, a[0], a[1], a[2], a[3]);
  }

  // A second request that gets the same number takes the late reply for its own.
  lemma LateReplyTaken(x: seq<byte>, y: seq<byte>)
    requires |y| <= MAX_MESSAGE_LENGTH
    ensures var t := AfterLateReply(x).(counter := 0, created := W);
      var end := RunFrom(t, [Request(1, true, y, true), ClientRead]);
      end.Some? && end.value.created == W + 1 && !RepliesMatch(end.value)
  {
    var t := AfterLateReply(x).(counter := 0, created := W);
    var b := [Request(1, true, y, true), ClientRead];
    var u := Apply(t, b[0]).value;
    assert u.waiting == Some(1) && u.requests[1].seqnum == 1;
    assert b[..1] == [b[0]] && [b[0]][..0] == [];
    assert RunFrom(t, [b[0]]) == Some(u);
    var end := RunFrom(t, b).value;
    assert end.accepted == [Accepted(1, t.toClient[0])];
    assert end.accepted[0].request != end.accepted[0].answer.request;
  }

  ghost predicate MixesReplies(steps: seq<Step>) {
    var end := RunFrom(START, steps);
    end.Some? && end.value.created == W + 1 && !RepliesMatch(end.value)
  }

  // With 2^32 + 1 constructions the counter has come round and a late reply is taken for a later request.
  lemma CounterWrapMixesReplies(x: seq<byte>, y: seq<byte>)
    requires |x| <= MAX_MESSAGE_LENGTH && |y| <= MAX_MESSAGE_LENGTH
    ensures exists steps :: MixesReplies(steps)
  {
    hide RunFrom; hide RepliesMatch; hide ReplyTo;
    var a, b := LateReply(x), [Request(1, true, y, true), ClientRead];
    LateReplyRun(x);
    OthersOnlyCount(AfterLateReply(x), W - 1);
    RunsCompose(START, a, Others(W - 1));
    RunsCompose(START, a + Others(W - 1), b);
    LateReplyTaken(x, y);
    assert MixesReplies(a + Others(W - 1) + b);
  }

  lemma FourSteps(s: State, a: Step, b: Step, c: Step, d: Step)
    requires Apply(s, a).Some? && Apply(Apply(s, a).value, b).Some?
    requires Apply(Apply(Apply(s, a).value, b).value, c).Some?
    ensures RunFrom(s, [a, b, c, d]) == Apply(Apply(Apply(Apply(s, a).value, b).value, c).value, d)
  {
    hide Apply;
    assert [a, b, c, d][..3] == [a, b, c] && [a, b, c][..2] == [a, b] && [a, b][..1] == [a] && [a][..0] == [];
    assert RunFrom(s, [a]) == Apply(s, a);
    assert RunFrom(s, [a, b]) == Apply(Apply(s, a).value, b);
    assert RunFrom(s, [a, b, c]) == Apply(Apply(Apply(s, a).value, b).value, c);
  }
}
