/**
 The reference object for both queue builds: one FIFO sequence on which each operation takes
 effect in a single atomic step between its call and its return. Nothing here mentions nodes,
 words or compare-and-swap.
 */
module QueueSpec {
  import opened Common
  import opened PackedWords

  datatype Item<+D> = Item(value: D, size: uint32)

  // What a thread does to the queue, as seen from outside.
  datatype Action<+D> =
    | Tau
    | CallPut(item: Item<D>, address: nat)  // the address the allocator returned; ignored here
    | Enqueue(item: Item<D>)
    | ReturnPut(ok: bool)
    | CallTake
    | Dequeue(value: D)
    | SawEmpty
    | Retry
    | ReturnTake(result: Option<D>)
    | CallSize(tailFirst: bool)  // which counter the compiled code loads first; ignored here
    | ReturnSize(size: uint32)

  // Where a thread stands between the call and the return of one operation.
  datatype Phase<+D> =
    | Idle
    | Putting(item: Item<D>)
    | Inserted
    | Taking
    | FoundEmpty
    | Got(value: D)
    | Sizing

  datatype Abstract<D> = Abstract(queue: seq<Item<D>>, phases: map<nat, Phase<D>>) {
    function With(t: nat, p: Phase<D>): Abstract<D> {
      this.(phases := phases[t := p])
    }
  }

  datatype Event<+D> = Event(thread: nat, action: Action<D>)

  // The atomic queue accepts an event, or None when the event would break FIFO order or its operation.
  // What Size answers is not decided here: it reads the queue at two moments.
  function Accept<D(==)>(a: Abstract<D>, e: Event<D>): Option<Abstract<D>> {
    var t := e.thread;
    if t !in a.phases then None else
    match (e.action, a.phases[t])
    case (Tau, _) => Some(a)
    case (CallPut(x, _), Idle) => Some(a.With(t, Putting(x)))
    case (Enqueue(x), Putting(y)) =>
      if x == y then Some(a.With(t, Inserted).(queue := a.queue + [x])) else None
    case (ReturnPut(_), Inserted) => Some(a.With(t, Idle))
    case (CallTake, Idle) => Some(a.With(t, Taking))
    case (Dequeue(v), Taking) =>
      if a.queue != [] && a.queue[0].value == v
      then Some(a.With(t, Got(v)).(queue := a.queue[1..])) else None
    case (SawEmpty, Taking) => if a.queue == [] then Some(a.With(t, FoundEmpty)) else None
    case (Retry, Taking) => Some(a)
    case (Retry, FoundEmpty) => Some(a.With(t, Taking))
    case (CallSize(_), Idle) => Some(a.With(t, Sizing))
    case (ReturnSize(_), Sizing) => Some(a.With(t, Idle))
    case (ReturnTake(None), FoundEmpty) => Some(a.With(t, Idle))
    case (ReturnTake(Some(v)), Got(w)) => if v == w then Some(a.With(t, Idle)) else None
    case _ => None
  }

  function AcceptAll<D(==)>(a: Abstract<D>, events: seq<Event<D>>): Option<Abstract<D>>
    decreases |events|
  {
    if events == [] then Some(a)
    else
      var before := AcceptAll(a, events[..|events| - 1]);
      if before.None? then None else Accept(before.value, events[|events| - 1])
  }

  function Values<D>(items: seq<Item<D>>): (r: seq<D>)
    ensures |r| == |items| && forall k :: 0 <= k < |items| ==> r[k] == items[k].value
  {
    seq(|items|, k requires 0 <= k < |items| => items[k].value)
  }

  function Sizes<D>(items: seq<Item<D>>): (r: seq<uint32>)
    ensures |r| == |items| && forall k :: 0 <= k < |items| ==> r[k] == items[k].size
  {
    seq(|items|, k requires 0 <= k < |items| => items[k].size)
  }

  function Enqueued<D>(events: seq<Event<D>>): seq<D> {
    if events == [] then []
    else
      var last := events[|events| - 1].action;
      var earlier := Enqueued(events[..|events| - 1]);
      if last.Enqueue? then earlier + [last.item.value] else earlier
  }

  function Dequeued<D>(events: seq<Event<D>>): seq<D> {
    if events == [] then []
    else
      var last := events[|events| - 1].action;
      var earlier := Dequeued(events[..|events| - 1]);
      if last.Dequeue? then earlier + [last.value] else earlier
  }

  // What one accepted event does to the values in the queue.
  lemma AcceptMoves<D>(a: Abstract<D>, e: Event<D>)
    requires Accept(a, e).Some?
    ensures var before, after := Values(a.queue), Values(Accept(a, e).value.queue);
      if e.action.Enqueue? then after == before + [e.action.item.value]
      else if e.action.Dequeue? then before == [e.action.value] + after
      else after == before
  {
  }

  // Conservation and order: what came out, then what is still queued, is exactly what went in.
  lemma {:induction false} FirstInFirstOut<D>(a: Abstract<D>, events: seq<Event<D>>)
    requires AcceptAll(a, events).Some?
    ensures Values(a.queue) + Enqueued(events) == Dequeued(events) + Values(AcceptAll(a, events).value.queue)
  {
    hide Accept; hide Values;
    if events != [] {
      var prefix, e := events[..|events| - 1], events[|events| - 1];
      FirstInFirstOut(a, prefix);
      var mid := AcceptAll(a, prefix).value;
      AcceptMoves(mid, e);
      var rest := Values(Accept(mid, e).value.queue);
      if e.action.Dequeue? {
        assert Dequeued(prefix) + ([e.action.value] + rest) == Dequeued(prefix) + [e.action.value] + rest;
      } else if e.action.Enqueue? {
        assert Values(a.queue) + (Enqueued(prefix) + [e.action.item.value])
            == Values(a.queue) + Enqueued(prefix) + [e.action.item.value];
      }
    }
  }

  // How often thread t called Put, took effect as an enqueue, and returned from Put.
  function Calls<D>(events: seq<Event<D>>, t: nat): nat {
    if events == [] then 0
    else
      var e := events[|events| - 1];
      Calls(events[..|events| - 1], t) + if e.thread == t && e.action.CallPut? then 1 else 0
  }

  function Effects<D>(events: seq<Event<D>>, t: nat): nat {
    if events == [] then 0
    else
      var e := events[|events| - 1];
      Effects(events[..|events| - 1], t) + if e.thread == t && e.action.Enqueue? then 1 else 0
  }

  function Returns<D>(events: seq<Event<D>>, t: nat): nat {
    if events == [] then 0
    else
      var e := events[|events| - 1];
      Returns(events[..|events| - 1], t) + if e.thread == t && e.action.ReturnPut? then 1 else 0
  }

  // Each Put enqueues exactly once, after its call and before its return.
  lemma {:induction false} EachPutEnqueuesOnce<D>(a: Abstract<D>, events: seq<Event<D>>, t: nat)
    requires t in a.phases && a.phases[t].Idle?
    requires AcceptAll(a, events).Some?
    ensures var b := AcceptAll(a, events).value;
      t in b.phases &&
      Calls(events, t) == Effects(events, t) + (if b.phases[t].Putting? then 1 else 0) &&
      Effects(events, t) == Returns(events, t) + (if b.phases[t].Inserted? then 1 else 0)
  {
    if events != [] {
      EachPutEnqueuesOnce(a, events[..|events| - 1], t);
    }
  }
}
