/**
 CIgniteEventSender: events that cannot be sent before the first connection wait in a bounded
 startup queue and go out, oldest first, ahead of the next event that finds a connection.
 */
module EventSender {
  import opened QueueSpec
  import opened SequentialQueues
  import Frames

  const STARTUP_QUEUE_MAX_SIZE: nat := 20480

  // What the surroundings answer during one call: the new connection id, the result of each
  // transmission in turn, and whether each attempt to lock the queue finds it taken.
  datatype Env = Env(connection: int, results: nat -> int, busy: nat -> bool)

  datatype Sender = Sender(connection: int, mayQueue: bool, queue: seq<Item<string>>)

  // The text a message carries: SetMessage refuses one that is too long and leaves the message empty.
  function Payload(event: string): string {
    if |event| + 1 <= Frames.MAX_MESSAGE_LENGTH then event else ""
  }

  predicate Accepts(s: Sender, event: string, env: Env) {
    s.mayQueue && TotalSize(s.queue) + |event| <= STARTUP_QUEUE_MAX_SIZE && Lockable(env.busy)
  }

  predicate Connected(s: Sender, env: Env) {
    s.connection >= 0 || env.connection >= 0
  }

  // One call of Send: the sender afterwards.
  function Sent(s: Sender, event: string, env: Env): Sender {
    if Connected(s, env) then
      var id := if s.connection >= 0 then s.connection else env.connection;
      Sender(if env.results(|s.queue|) == -1 then -1 else id, s.mayQueue && s.queue == [], [])
    else if Accepts(s, event, env) then
      Sender(env.connection, s.mayQueue, s.queue + [Item(event, |event|)])
    else s.(connection := env.connection)
  }

  // The events one call tries to transmit.
  function Attempts(s: Sender, event: string, env: Env): seq<string> {
    if Connected(s, env) then Values(s.queue) + [event] else []
  }

  function Payloads(events: seq<string>): (r: seq<string>)
    ensures |r| == |events| && forall k :: 0 <= k < |events| ==> r[k] == Payload(events[k])
  {
    seq(|events|, k requires 0 <= k < |events| => Payload(events[k]))
  }

  // Each event goes out as it is, or as the empty text when it is too long for a message.
  lemma PayloadsAt(events: seq<string>)
    ensures forall k :: 0 <= k < |events| ==>
      Payloads(events)[k] == if |events[k]| < Frames.MAX_MESSAGE_LENGTH then events[k] else ""
  {
  }

  lemma PayloadsOfPrefix(q: seq<Item<string>>, k: nat, event: string)
    requires k <= |q|
    ensures Payloads(Values(q[..0])) == [] && TotalSize<string>([]) == 0
    ensures k < |q| ==> Payloads(Values(q[..k + 1])) == Payloads(Values(q[..k])) + [Payload(q[k].value)]
    ensures Payloads(Values(q) + [event]) == Payloads(Values(q)) + [Payload(event)]
  {
  }

  lemma TotalWithNext(queue: seq<Item<string>>, item: Item<string>)
    ensures TotalSize(queue + [item]) == TotalSize(queue) + item.size
  {
    TotalSizeSplits(queue, [item]);
    TotalSizeOfOne(item);
  }

  predicate Bounded(s: Sender) {
    && TotalSize(s.queue) <= STARTUP_QUEUE_MAX_SIZE
    && (!s.mayQueue ==> s.queue == [])
    && forall k :: 0 <= k < |s.queue| ==> s.queue[k].size == |s.queue[k].value|
  }

  class CIgniteEventSender {
    var connection: int
    var mayQueue: bool
    const startup: MutexQueue<string>
    var wire: seq<string>  // the texts handed to CIgniteMessage::Send, in order

    function State(): Sender
      reads this, startup
    {
      Sender(connection, mayQueue, startup.queue)
    }

    ghost predicate Valid()
      reads this, startup
    {
      startup.Valid() && Bounded(State())
    }

    constructor ()
      ensures Valid() && State() == Sender(-1, true, []) && wire == [] && fresh(startup)
    {
      startup := new MutexQueue<string>();
      connection, mayQueue, wire := -1, true, [];
    }

    method Transmit(event: string, result: int) returns (ret: int)
      modifies this`wire
      ensures wire == old(wire) + [Payload(event)] && ret == result
      ensures wire[|old(wire)|] == if |event| < Frames.MAX_MESSAGE_LENGTH then event else ""
    {
      wire := wire + [Payload(event)];
      ret := result;
    }

    method AddEventToStartUpQueue(event: string, busy: nat -> bool)
      requires Valid() && mayQueue
      modifies startup
      ensures Valid()
      ensures startup.queue ==
        if TotalSize(old(startup.queue)) + |event| <= STARTUP_QUEUE_MAX_SIZE && Lockable(busy)
        then old(startup.queue) + [Item(event, |event|)] else old(startup.queue)
    {
      hide Lockable; hide TotalSize;
      var size := startup.Size();
      if size + |event| <= STARTUP_QUEUE_MAX_SIZE {
        TotalWithNext(startup.queue, Item(event, |event|));
        var ok, attempts := startup.Put(event, |event|, busy);
      }
    }

    // Sends what is queued, oldest first, whatever becomes of each one; queueing ends with the first.
    method SendQueued(results: nat -> int) returns (sent: nat)
      requires startup.Valid()
      modifies this`wire, this`mayQueue, startup
      ensures startup.Valid() && startup.queue == [] && sent == |old(startup.queue)|
      ensures mayQueue == (old(mayQueue) && old(startup.queue) == [])
      ensures wire == old(wire) + Payloads(Values(old(startup.queue)))
      ensures forall k :: 0 <= k < |old(startup.queue)| ==>
        wire[|old(wire)| + k] == if |old(startup.queue)[k].value| < Frames.MAX_MESSAGE_LENGTH then old(startup.queue)[k].value else ""
    {
      hide TotalSize; hide Values; hide Payloads; hide Payload;
      ghost var q := startup.queue;
      PayloadsOfPrefix(q, 0, "");
      sent := 0;
      var next := startup.Take();
      while next.Some?
        invariant startup.Valid() && sent <= |q|
        invariant if next.Some? then sent < |q| && next.value == q[sent].value && startup.queue == q[sent + 1..]
                  else sent == |q| && startup.queue == []
        invariant mayQueue == (old(mayQueue) && sent == 0)
        invariant wire == old(wire) + Payloads(Values(q[..sent]))
        decreases |q| - sent
      {
        var ret := Transmit(next.value, results(sent));
        mayQueue := false;
        PayloadsOfPrefix(q, sent, "");
        sent := sent + 1;
        next := startup.Take();
      }
      assert q[..sent] == q;
      PayloadsAt(Values(q));
    }

    method Send(event: string, env: Env) returns (ret: int)
      requires Valid()
      modifies this, startup
      ensures Valid()
      ensures State() == Sent(old(State()), event, env)
      ensures wire == old(wire) + Payloads(Attempts(old(State()), event, env))
      ensures ret == if Connected(old(State()), env) then env.results(|old(startup.queue)|) else -1
      // With a connection, old or new: all that was queued and then the event, each as it is if it is short enough.
      ensures old(connection) >= 0 || env.connection >= 0 ==>
        && |wire| == |old(wire)| + |old(startup.queue)| + 1 && wire[..|old(wire)|] == old(wire)
        && (forall k :: 0 <= k < |old(startup.queue)| ==>
              wire[|old(wire)| + k] == if |old(startup.queue)[k].value| < Frames.MAX_MESSAGE_LENGTH then old(startup.queue)[k].value else "")
        && wire[|wire| - 1] == (if |event| < Frames.MAX_MESSAGE_LENGTH then event else "")
        && ret == env.results(|old(startup.queue)|) && startup.queue == []
        && mayQueue == (old(mayQueue) && old(startup.queue) == [])
        && connection == (if ret == -1 then -1 else if old(connection) >= 0 then old(connection) else env.connection)
      // Without one: nothing is sent, and the event is queued if it may be, fits and the queue can be locked.
      ensures old(connection) < 0 && env.connection < 0 ==>
        && wire == old(wire) && ret == -1 && connection == env.connection && mayQueue == old(mayQueue)
        && startup.queue == old(startup.queue) + (
             if old(mayQueue) && TotalSize(old(startup.queue)) + |event| <= STARTUP_QUEUE_MAX_SIZE && Lockable(env.busy)
             then [Item(event, |event|)] else [])
    {
      hide TotalSize; hide Values; hide Payloads; hide Payload;
      PayloadsOfPrefix(startup.queue, 0, event);
      if connection < 0 {
        connection := env.connection;
      }
      ret := -1;
      if connection >= 0 {
        var sent := SendQueued(env.results);
        ret := Transmit(event, env.results(sent));
        if ret == -1 {
          connection := -1;
        }
      } else if mayQueue {
        AddEventToStartUpQueue(event, env.busy);
      }
    }
  }

  // --- Whole runs ----------------------------------------------------------------------------

  // A run so far: the events submitted, and which of them (by number) were attempted, still wait, or were dropped.
  datatype Log = Log(sender: Sender, submitted: seq<string>, attempted: seq<nat>, queued: seq<nat>, dropped: set<nat>)

  datatype Call = Call(event: string, env: Env)

  function Logged(l: Log, c: Call): Log {
    var id, s := |l.submitted|, Sent(l.sender, c.event, c.env);
    var submitted := l.submitted + [c.event];
    if Connected(l.sender, c.env) then Log(s, submitted, l.attempted + l.queued + [id], [], l.dropped)
    else if Accepts(l.sender, c.event, c.env) then Log(s, submitted, l.attempted, l.queued + [id], l.dropped)
    else Log(s, submitted, l.attempted, l.queued, l.dropped + {id})
  }

  function RunOf(calls: seq<Call>): Log {
    if calls == [] then Log(Sender(-1, true, []), [], [], [], {})
    else Logged(RunOf(calls[..|calls| - 1]), calls[|calls| - 1])
  }

  // Everything the calls of a run hand to the message layer.
  function Wire(calls: seq<Call>): seq<string> {
    if calls == [] then []
    else
      var before, last := calls[..|calls| - 1], calls[|calls| - 1];
      Wire(before) + Payloads(Attempts(RunOf(before).sender, last.event, last.env))
  }

  predicate Increasing(ids: seq<nat>) {
    forall i, j :: 0 <= i < j < |ids| ==> ids[i] < ids[j]
  }

  // Every submitted event is attempted, waiting or dropped, and only one of these.
  ghost predicate Accounted(l: Log) {
    && Increasing(l.attempted + l.queued)
    && (forall id :: id in l.attempted || id in l.queued || id in l.dropped ==> id < |l.submitted|)
    && (forall id: nat :: id < |l.submitted| ==> (id in l.attempted + l.queued <==> id !in l.dropped))
  }

  // The queue holds exactly the waiting events.
  ghost predicate Waiting(l: Log) {
    && |l.sender.queue| == |l.queued|
    && forall k :: 0 <= k < |l.queued| ==>
         l.queued[k] < |l.submitted| && l.sender.queue[k].value == l.submitted[l.queued[k]]
  }

  lemma StepAccounts(l: Log, c: Call)
    requires Accounted(l) && Waiting(l)
    ensures Accounted(Logged(l, c)) && Waiting(Logged(l, c))
  {
    var l' := Logged(l, c);
    var all, id := l.attempted + l.queued, |l.submitted|;
    if id in l'.dropped {
      assert l'.attempted + l'.queued == all;
    } else {
      assert l'.attempted + l'.queued == all + [id];
      assert forall k :: 0 <= k < |all| ==> all[k] in all;
    }
  }

  lemma StepKeepsBound(s: Sender, event: string, env: Env)
    requires Bounded(s)
    ensures Bounded(Sent(s, event, env))
    ensures Sent(s, event, env).mayQueue ==> s.mayQueue
    ensures !s.mayQueue ==> Sent(s, event, env).queue == []
  {
    if !Connected(s, env) && Accepts(s, event, env) {
      TotalWithNext(s.queue, Item(event, |event|));
    }
  }

  // MAIN RESULT. Attempts follow the order of the calls, none is made twice and no event is lost track of.
  lemma {:induction false} RunAccounts(calls: seq<Call>)
    ensures Accounted(RunOf(calls)) && Waiting(RunOf(calls)) && Bounded(RunOf(calls).sender)
    ensures TotalSize(RunOf(calls).sender.queue) <= STARTUP_QUEUE_MAX_SIZE
  {
    if calls != [] {
      var before, last := RunOf(calls[..|calls| - 1]), calls[|calls| - 1];
      RunAccounts(calls[..|calls| - 1]);
      StepAccounts(before, last);
      StepKeepsBound(before.sender, last.event, last.env);
    }
  }

  // Event number k as it goes on the wire.
  function Texts(submitted: seq<string>, ids: seq<nat>): seq<string>
    requires Numbers(submitted, ids)
  {
    seq(|ids|, k requires 0 <= k < |ids| => Payload(submitted[ids[k]]))
  }

  lemma TextsAt(submitted: seq<string>, ids: seq<nat>)
    requires Numbers(submitted, ids)
    ensures |Texts(submitted, ids)| == |ids|
    ensures forall k :: 0 <= k < |ids| ==>
      Texts(submitted, ids)[k] == if |submitted[ids[k]]| < Frames.MAX_MESSAGE_LENGTH then submitted[ids[k]] else ""
  {
  }

  predicate Numbers(submitted: seq<string>, ids: seq<nat>) {
    forall k :: 0 <= k < |ids| ==> ids[k] < |submitted|
  }

  lemma WaitingTexts(l: Log, event: string)
    requires Waiting(l)
    ensures Numbers(l.submitted, l.queued)
    ensures Texts(l.submitted + [event], l.queued + [|l.submitted|]) == Payloads(Values(l.sender.queue) + [event])
  {
  }

  lemma TextsAppend(submitted: seq<string>, event: string, a: seq<nat>, b: seq<nat>)
    requires Numbers(submitted, a) && Numbers(submitted + [event], b)
    ensures Numbers(submitted + [event], a + b)
    ensures Texts(submitted + [event], a + b) == Texts(submitted, a) + Texts(submitted + [event], b)
  {
  }

  // One call transmits exactly the events it moves from waiting to attempted.
  lemma StepWire(l: Log, c: Call)
    requires Waiting(l) && Numbers(l.submitted, l.attempted)
    ensures var l' := Logged(l, c);
      && Numbers(l'.submitted, l'.attempted)
      && Texts(l'.submitted, l'.attempted)
           == Texts(l.submitted, l.attempted) + Payloads(Attempts(l.sender, c.event, c.env))
  {
    hide Texts; hide Payloads; hide Values; hide Waiting; hide Sent;
    var moved := if Connected(l.sender, c.env) then l.queued + [|l.submitted|] else [];
    WaitingTexts(l, c.event);
    TextsAppend(l.submitted, c.event, l.attempted, moved);
    NoTexts(l.submitted + [c.event]);
    assert Logged(l, c).attempted == l.attempted + moved;
  }

  lemma AttemptedNumbers(l: Log)
    requires Accounted(l)
    ensures Numbers(l.submitted, l.attempted)
  {
    assert forall k :: 0 <= k < |l.attempted| ==> l.attempted[k] in l.attempted;
  }

  // What was transmitted is exactly the attempted events, whatever connected or failed.
  lemma {:induction false} WireIsAttempts(calls: seq<Call>)
    ensures var l := RunOf(calls); Numbers(l.submitted, l.attempted) && Wire(calls) == Texts(l.submitted, l.attempted)
    ensures var l := RunOf(calls);
      && |Wire(calls)| == |l.attempted|
      && (forall k :: 0 <= k < |l.attempted| ==> l.attempted[k] < |l.submitted|)
      && forall k :: 0 <= k < |l.attempted| ==>
           Wire(calls)[k] ==
             if |l.submitted[l.attempted[k]]| < Frames.MAX_MESSAGE_LENGTH then l.submitted[l.attempted[k]] else ""
  {
    hide Accounted; hide Logged; hide Attempts; hide Texts; hide Payloads; hide Waiting; hide Bounded;
    RunAccounts(calls);
    AttemptedNumbers(RunOf(calls));
    TextsAt(RunOf(calls).submitted, RunOf(calls).attempted);
    if calls != [] {
      var before := calls[..|calls| - 1];
      WireIsAttempts(before);
      RunAccounts(before);
      StepWire(RunOf(before), calls[|calls| - 1]);
    } else {
      NoTexts([]);
    }
  }

  lemma NoTexts(submitted: seq<string>)
    ensures Texts(submitted, []) == [] == Payloads([])
  {
  }

  // Once the may-queue flag is off it stays off, and the queue stays empty.
  lemma {:induction false} QueueingEndsForGood(calls: seq<Call>, n: nat)
    requires n <= |calls| && !RunOf(calls[..n]).sender.mayQueue
    ensures !RunOf(calls).sender.mayQueue && RunOf(calls).sender.queue == []
    decreases |calls|
  {
    if n == |calls| {
      assert calls[..n] == calls;
      RunAccounts(calls);
    } else {
      var before, last := calls[..|calls| - 1], calls[|calls| - 1];
      assert before[..n] == calls[..n];
      QueueingEndsForGood(before, n);
      RunAccounts(before);
      StepKeepsBound(RunOf(before).sender, last.event, last.env);
    }
  }

  // Call number k finds a connection while events wait.
  predicate Drains(calls: seq<Call>, k: nat)
    requires k < |calls|
  {
    var s := RunOf(calls[..k]).sender;
    Connected(s, calls[k].env) && s.queue != []
  }

  // The flag goes off with the first call that finds a connection while events wait, and with no other:
  // connecting with nothing queued leaves queueing on for a later loss of the connection.
  lemma {:induction false} QueueingEndsWhenDrained(calls: seq<Call>)
    ensures RunOf(calls).sender.mayQueue <==> forall k: nat :: k < |calls| ==> !Drains(calls, k)
  {
    if calls != [] {
      var before, n := calls[..|calls| - 1], |calls| - 1;
      QueueingEndsWhenDrained(before);
      assert RunOf(calls).sender.mayQueue <==> RunOf(before).sender.mayQueue && !Drains(calls, n);
      forall k: nat | k < n ensures Drains(before, k) == Drains(calls, k) {
        assert before[..k] == calls[..k] && before[k] == calls[k];
      }
      hide RunOf; hide Drains;
    }
  }
}
