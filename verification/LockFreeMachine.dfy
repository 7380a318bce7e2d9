/**
 The lock-free build of CConcurrentQueue as a transition system. Every atomic load and every
 compare-and-swap is one step, and any thread may take the next one. Nodes are never reused,
 so an address names one node for the whole run.
 */
module LockFreeMachine {
  import opened Common
  import opened PackedWords
  import opened QueueSpec

  datatype Node<+D> = Node(value: D, next: Word)

  datatype Shared<D> = Shared(track: bool, heap: map<nat, Node<D>>, head: Word, tail: Word)

  // The parameters of one Put and the word of the node it allocated.
  datatype PutArgs<+D> = PutArgs(data: D, size: uint32, node: Word)

  // A program counter with the locals that are live there.
  datatype Local<+D> =
    | Resting
    | PutReadTail(args: PutArgs<D>)
    | PutReadNext(args: PutArgs<D>, tail: Word)
    | PutRecheck(args: PutArgs<D>, tail: Word, next: Word)
    | PutLink(args: PutArgs<D>, tail: Word)
    | PutHelp(args: PutArgs<D>, tail: Word, next: Word)
    | PutSwing(args: PutArgs<D>, tail: Word)
    | PutReturn(args: PutArgs<D>, ok: bool)
    | TakeReadHead
    | TakeReadTail(head: Word)
    | TakeReadNext(head: Word, tail: Word)
    | TakeRecheck(head: Word, tail: Word, next: Word)
    | TakeHelp(tail: Word, next: Word)
    | TakeReadValue(head: Word, next: Word)
    | TakeSwing(head: Word, next: Word, value: D)
    | TakeReturn(result: Option<D>)
    | SizeStart(tailFirst: bool)
    | SizeReadHead(tail: Word)
    | SizeReadTail(head: Word)
    | SizeReturn(size: uint32)

  datatype Outcome<D> =
    | Fault  // a pointer outside the heap was followed
    | Moved(g: Shared<D>, local: Local<D>, action: Action<D>)

  function SwapHead<D>(g: Shared<D>, expected: Word, desired: Word): Shared<D> {
    if g.head == expected then g.(head := Swapped(g.track, expected, desired)) else g
  }

  function SwapTail<D>(g: Shared<D>, expected: Word, desired: Word): Shared<D> {
    if g.tail == expected then g.(tail := Swapped(g.track, expected, desired)) else g
  }

  function PutStep<D>(g: Shared<D>, l: Local<D>): Outcome<D>
    requires l.PutReadTail? || l.PutReadNext? || l.PutRecheck? || l.PutLink? || l.PutHelp? || l.PutSwing?
  {
    match l
    case PutReadTail(a) => Moved(g, PutReadNext(a, g.tail), Tau)
    case PutReadNext(a, tail) =>
      var p := GetPtr(g.track, tail);
      if p !in g.heap then Fault else Moved(g, PutRecheck(a, tail, g.heap[p].next), Tau)
    case PutRecheck(a, tail, next) =>
      if tail != g.tail then Moved(g, PutReadTail(a), Tau)
      else if next == 0 then Moved(g, PutLink(a, tail), Tau)
      else Moved(g, PutHelp(a, tail, next), Tau)
    case PutLink(a, tail) =>
      var p := GetPtr(g.track, tail);
      if p !in g.heap then Fault
      else if g.heap[p].next != 0 then Moved(g, PutReadTail(a), Tau)
      else
        var linked := g.heap[p].(next := Swapped(g.track, 0, a.node));
        Moved(g.(heap := g.heap[p := linked]), PutSwing(a, tail), Enqueue(Item(a.data, a.size)))
    case PutHelp(a, tail, next) => Moved(SwapTail(g, tail, next), PutReadTail(a), Tau)
    case PutSwing(a, tail) => Moved(SwapTail(g, tail, a.node), PutReturn(a, g.tail == tail), Tau)
  }

  function TakeStep<D>(g: Shared<D>, l: Local<D>): Outcome<D>
    requires l.TakeReadHead? || l.TakeReadTail? || l.TakeReadNext? || l.TakeRecheck? || l.TakeHelp? || l.TakeReadValue? || l.TakeSwing?
  {
    match l
    case TakeReadHead => Moved(g, TakeReadTail(g.head), Tau)
    case TakeReadTail(head) => Moved(g, TakeReadNext(head, g.tail), Tau)
    case TakeReadNext(head, tail) =>
      var p := GetPtr(g.track, head);
      if p !in g.heap then Fault
      else
        var next := g.heap[p].next;
        Moved(g, TakeRecheck(head, tail, next), if next == 0 then SawEmpty else Tau)
    case TakeRecheck(head, tail, next) =>
      if head != g.head then Moved(g, TakeReadHead, Retry)
      else if head != tail then Moved(g, TakeReadValue(head, next), Tau)
      else if next == 0 then Moved(g, TakeReturn(None), Tau)
      else Moved(g, TakeHelp(tail, next), Tau)
    case TakeHelp(tail, next) => Moved(SwapTail(g, tail, next), TakeReadHead, Retry)
    case TakeReadValue(head, next) =>
      var p := GetPtr(g.track, next);
      if p !in g.heap then Fault else Moved(g, TakeSwing(head, next, g.heap[p].value), Tau)
    case TakeSwing(head, next, value) =>
      if g.head == head
      then Moved(SwapHead(g, head, next), TakeReturn(Some(value)), Dequeue(value))
      else Moved(g, TakeReadHead, Retry)
  }

  // What Size computes from two loaded words; unsigned subtraction wraps.
  function SizeBetween(head: Word, tail: Word): uint32 {
    (GetSize(tail) + W - GetSize(head)) % W
  }

  // The two loads of Size, in the order the compiler chose.
  function SizeStep<D>(g: Shared<D>, l: Local<D>): Outcome<D>
    requires l.SizeStart? || l.SizeReadHead? || l.SizeReadTail?
  {
    match l
    case SizeStart(tailFirst) => Moved(g, if tailFirst then SizeReadHead(g.tail) else SizeReadTail(g.head), Tau)
    case SizeReadHead(tail) => Moved(g, SizeReturn(SizeBetween(g.head, tail)), Tau)
    case SizeReadTail(head) => Moved(g, SizeReturn(SizeBetween(head, g.tail)), Tau)
  }

  datatype System<D> = System(g: Shared<D>, threads: map<nat, Local<D>>)

  // A Put begins by allocating and filling a node that no other thread can reach.
  predicate Fresh<D>(g: Shared<D>, address: nat) {
    ValidPtr(g.track, address) && address !in g.heap
  }

  function BeginPut<D>(g: Shared<D>, item: Item<D>, address: nat): Outcome<D> {
    Moved(g.(heap := g.heap[address := Node(item.value, 0)]),
          PutReadTail(PutArgs(item.value, item.size, NewNodePtr(g.track, address, item.size))),
          CallPut(item, address))
  }

  // One step of thread e.thread, seen from outside as e.action.
  ghost predicate Next<D(!new)>(s: System<D>, e: Event<D>, s': System<D>) {
    && e.thread in s.threads
    && var l := s.threads[e.thread];
       exists o: Outcome<D> :: LocalStep(s.g, l, e.action, o)
         && s' == System(o.g, s.threads[e.thread := o.local])
  }

  ghost predicate LocalStep<D>(g: Shared<D>, l: Local<D>, action: Action<D>, o: Outcome<D>) {
    && o.Moved?
    && o.action == action
    && match l
       case Resting =>
         || (action.CallPut? && Fresh(g, action.address) && o == BeginPut(g, action.item, action.address))
         || o == Moved(g, TakeReadHead, CallTake)
         || (g.track && action.CallSize? && o == Moved(g, SizeStart(action.tailFirst), action))
       case PutReturn(_, ok) => o == Moved(g, Resting, ReturnPut(ok))
       case TakeReturn(result) => o == Moved(g, Resting, ReturnTake(result))
       case SizeReturn(size) => o == Moved(g, Resting, ReturnSize(size))
       case SizeStart(_) => o == SizeStep(g, l)
       case SizeReadHead(_) => o == SizeStep(g, l)
       case SizeReadTail(_) => o == SizeStep(g, l)
       case PutReadTail(_) => o == PutStep(g, l)
       case PutReadNext(_, _) => o == PutStep(g, l)
       case PutRecheck(_, _, _) => o == PutStep(g, l)
       case PutLink(_, _) => o == PutStep(g, l)
       case PutHelp(_, _, _) => o == PutStep(g, l)
       case PutSwing(_, _) => o == PutStep(g, l)
       case _ => o == TakeStep(g, l)
  }

  // The constructor: one dummy node with counter 0 that head and tail both name, and every thread at rest.
  ghost predicate Initial<D(!new)>(s: System<D>) {
    exists address: nat, dummy: D :: ValidPtr(s.g.track, address) && InitialAt(s, address, dummy)
  }

  ghost predicate InitialAt<D(!new)>(s: System<D>, address: nat, dummy: D) {
    && s.g == Shared(s.g.track, map[address := Node(dummy, 0)],
                     NewNodePtr(s.g.track, address, 0), NewNodePtr(s.g.track, address, 0))
    && forall t :: t in s.threads ==> s.threads[t] == Resting
  }

  // A finite run under any interleaving of any set of threads.
  ghost predicate Run<D(!new)>(states: seq<System<D>>, events: seq<Event<D>>) {
    && |states| == |events| + 1
    && Initial(states[0])
    && forall k :: 0 <= k < |events| ==> Next(states[k], events[k], states[k + 1])
  }
}
