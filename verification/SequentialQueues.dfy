/**
 The two builds of CConcurrentQueue as objects called by one thread at a time. Here the lock-free
 build really frees the node that Take passes, so addresses are reused and counters wrap.
 */
module SequentialQueues {
  import opened Common
  import opened PackedWords
  import opened QueueSpec
  import opened LockFreeMachine
  import opened LockFreeProof

  // --- The common specification ------------------------------------------------------------

  datatype Op<+D> = OpPut(item: Item<D>) | OpTake | OpSize

  datatype Answer<+D> = Stored(ok: bool) | Taken(value: Option<D>) | Total(size: uint32)

  function TotalSize<D>(queue: seq<Item<D>>): nat {
    Sum(Sizes(queue))
  }

  lemma TotalSizeSplits<D>(a: seq<Item<D>>, b: seq<Item<D>>)
    ensures TotalSize(a + b) == TotalSize(a) + TotalSize(b)
  {
    assert Sizes(a + b) == Sizes(a) + Sizes(b);
    SumAppend(Sizes(a), Sizes(b));
  }

  lemma TotalSizeOfOne<D>(item: Item<D>)
    ensures TotalSize([item]) == item.size && TotalSize<D>([]) == 0
  {
    var sizes := Sizes([item]);
    assert |sizes| == 1 && sizes[0] == item.size && sizes[..|sizes| - 1] == [];
    assert Sum(sizes) == Sum(sizes[..|sizes| - 1]) + sizes[|sizes| - 1];
    assert Sizes<D>([]) == [];
  }

  function AnswerOf<D>(queue: seq<Item<D>>, op: Op<D>): Answer<D> {
    match op
    case OpPut(_) => Stored(true)
    case OpTake => Taken(if queue == [] then None else Some(queue[0].value))
    case OpSize => Total(TotalSize(queue) % W)
  }

  function After<D>(queue: seq<Item<D>>, op: Op<D>): seq<Item<D>> {
    match op
    case OpPut(x) => queue + [x]
    case OpTake => if queue == [] then [] else queue[1..]
    case OpSize => queue
  }

  function AfterAll<D>(queue: seq<Item<D>>, ops: seq<Op<D>>): seq<Item<D>> {
    if ops == [] then queue else After(AfterAll(queue, ops[..|ops| - 1]), ops[|ops| - 1])
  }

  function Answers<D>(queue: seq<Item<D>>, ops: seq<Op<D>>): seq<Answer<D>> {
    if ops == [] then []
    else Answers(queue, ops[..|ops| - 1]) + [AnswerOf(AfterAll(queue, ops[..|ops| - 1]), ops[|ops| - 1])]
  }

  // Before every Put there is a free 32-bit address: one node per queued item, one dummy, one new.
  ghost predicate Fits<D>(ops: seq<Op<D>>) {
    forall k :: 0 <= k < |ops| && ops[k].OpPut? ==> |AfterAll([], ops[..k])| + 2 < W
  }

  // --- Lock-free build ------------------------------------------------------------------------

  // Some address below n is not among fewer than n - 1 used ones.
  lemma {:induction false} FreeAddress(used: set<nat>, n: nat)
    requires n > 0 && |used| < n - 1
    ensures exists a :: 0 < a < n && a !in used
  {
    if n - 1 !in used {
      assert 0 < n - 1 < n;
    } else {
      FreeAddress(used - {n - 1}, n - 1);
      var a :| 0 < a < n - 1 && a !in used - {n - 1};
      assert a !in used;
    }
  }

  // The live part of the chain after head has moved past the first node and that node was freed.
  function Freed(c: History): History
    requires |c.chain| == |c.sizes| >= 2 && c.t > 0
  {
    History(c.chain[1..], [(c.sizes[0] + c.sizes[1]) % W] + c.sizes[2..], 0, c.t - 1)
  }

  lemma {:induction false} FreedWords(track: bool, c: History, j: nat)
    requires |c.chain| == |c.sizes| && c.t > 0 && 0 < j < |c.chain|
    ensures At(track, Freed(c), j - 1) == At(track, c, j)
    ensures j > 1 ==> LinkTo(track, Freed(c), j - 1) == LinkTo(track, c, j)
  {
    var s, s' := c.sizes[..j + 1], Freed(c).sizes[..j];
    assert s == [c.sizes[0]] + [c.sizes[1]] + s[2..];
    assert s' == [(c.sizes[0] + c.sizes[1]) % W] + s[2..];
    SumAppend([c.sizes[0]] + [c.sizes[1]], s[2..]);
    SumAppend([c.sizes[0]], [c.sizes[1]]);
    SumAppend([(c.sizes[0] + c.sizes[1]) % W], s[2..]);
    var a: nat, b: nat := c.sizes[0], c.sizes[1];
    ModAdd(a + b, Sum(s[2..]));
  }

  lemma FreeKeepsShape<D>(g: Shared<D>, c: History, g': Shared<D>)
    requires Shape(g, c) && c.h == 1
    requires g' == g.(heap := g.heap - {c.chain[0]})
    ensures Shape(g', Freed(c)) && QueueOf(g', Freed(c)) == QueueOf(g, c)
  {
    hide At; hide LinkTo; hide Items;
    var c' := Freed(c);
    FreedWords(g.track, c, 1);
    FreedWords(g.track, c, c.t);
    forall k | 0 <= k < |c'.chain|
      ensures Linked(g', c', k)
    {
      assert Linked(g, c, k + 1);
      if k + 1 < |c'.chain| { FreedWords(g.track, c, k + 2); }
    }
    ItemsOfFreed(g, c, g');
  }

  lemma ItemsOfFreed<D>(g: Shared<D>, c: History, g': Shared<D>)
    requires Shape(g, c) && c.h == 1
    requires g' == g.(heap := g.heap - {c.chain[0]})
    ensures Items(g'.heap, Freed(c).chain, Freed(c).sizes, 0) == Items(g.heap, c.chain, c.sizes, 1)
  {
  }

  function NodeSet(chain: seq<nat>): set<nat> {
    set p | p in chain
  }

  lemma {:induction false} NodeSetSize(chain: seq<nat>)
    ensures |NodeSet(chain)| <= |chain|
  {
    if chain != [] {
      var n := |chain| - 1;
      NodeSetSize(chain[..n]);
      assert NodeSet(chain) == NodeSet(chain[..n]) + {chain[n]};
    }
  }

  /** The lock-free CConcurrentQueue, without other threads. */
  class LockFreeQueue<D(0)> {
    const track: bool
    var heap: map<nat, Node<D>>
    var head: Word
    var tail: Word
    ghost var c: History  // the live nodes, dummy first; sizes[0] is the counter of head

    function Memory(): Shared<D>
      reads this
    {
      Shared(track, heap, head, tail)
    }

    ghost predicate Valid()
      reads this
    {
      Shape(Memory(), c) && c.h == 0 && heap.Keys == NodeSet(c.chain)
    }

    // The tail is one node behind, as an interrupted Put may leave it.
    ghost predicate Lagging()
      reads this
    {
      c.t + 1 < |c.chain|
    }

    ghost function Contents(): seq<Item<D>>
      requires Valid()
      reads this
    {
      QueueOf(Memory(), c)
    }

    constructor (track: bool, address: nat, dummy: D)
      requires ValidPtr(track, address)
      ensures Valid() && !Lagging() && Contents() == [] && this.track == track
    {
      this.track := track;
      heap := map[address := Node(dummy, 0)];
      head := NewNodePtr(track, address, 0);
      tail := NewNodePtr(track, address, 0);
      c := History([address], [0], 0, 0);
      new;
      assert c.sizes[..1] == [0];
      assert Linked(Memory(), c, 0);
    }

    // ComAndSwap on the tail.
    method SwingTail(expected: Word, desired: Word) returns (ok: bool)
      modifies this`tail
      ensures ok == (old(tail) == expected)
      ensures Memory() == SwapTail(old(Memory()), expected, desired)
    {
      ok := tail == expected;
      if ok { tail := Swapped(track, expected, desired); }
    }

    // ComAndSwap on the head.
    method SwingHead(expected: Word, desired: Word) returns (ok: bool)
      modifies this`head
      ensures ok == (old(head) == expected)
      ensures Memory() == SwapHead(old(Memory()), expected, desired)
    {
      ok := head == expected;
      if ok { head := Swapped(track, expected, desired); }
    }

    // ComAndSwap on the next word of the node at p.
    method SwingNext(p: nat, expected: Word, desired: Word) returns (ok: bool)
      requires p in heap
      modifies this`heap
      ensures ok == (old(heap)[p].next == expected)
      ensures heap == if ok then old(heap)[p := old(heap)[p].(next := Swapped(track, expected, desired))] else old(heap)
    {
      ok := heap[p].next == expected;
      if ok { heap := heap[p := heap[p].(next := Swapped(track, expected, desired))]; }
    }

    method Allocate(value: D) returns (address: nat)
      requires Valid() && |Contents()| + 2 < W
      modifies this`heap
      ensures ValidPtr(track, address) && address !in old(heap)
      ensures heap == old(heap)[address := Node(value, 0)]
    {
      NodeSetSize(c.chain);
      FreeAddress(heap.Keys, W);
      address :| 0 < address < W && address !in heap;
      heap := heap[address := Node(value, 0)];
    }

    method Put(data: D, size: uint32) returns (ok: bool)
      requires Valid() && |Contents()| + 2 < W
      modifies this
      ensures Valid() && !Lagging() && Contents() == old(Contents()) + [Item(data, size)]
      ensures ok
    {
      hide Shape; hide Swapped; hide GetPtr; hide NewNodePtr; hide QueueOf;
      var item := Item(data, size);
      var address := Allocate(data);
      var node := NewNodePtr(track, address, size);
      PendingStart(old(Memory()), c, Memory(), address, item);
      var last := tail;
      while true
        invariant Pending(Memory(), c, address, item, old(Contents()))
        decreases |c.chain| - c.t
      {
        last := tail;
        PendingRead(Memory(), c, address, item, old(Contents()));
        var next := heap[GetPtr(track, last)].next;
        if last == tail {
          ghost var before := Memory();
          if next == 0 {
            var linked := SwingNext(GetPtr(track, last), next, node);
            if linked {
              c := PendingLink(before, c, Memory(), address, item, old(Contents()));
              break;
            }
          } else {
            var swung := SwingTail(last, next);
            c := HelpTail(before, c, next, Memory());
          }
        }
      }
      ghost var before := Memory();
      ok := SwingTail(last, node);
      c := HelpTail(before, c, node, Memory());
    }

    // Frees the node that Take passed, so its address may be handed out again.
    method Take() returns (result: Option<D>)
      requires Valid()
      modifies this
      ensures Valid() && Contents() == After(old(Contents()), OpTake)
      ensures Taken(result) == AnswerOf(old(Contents()), OpTake)
      ensures !old(Lagging()) ==> !Lagging()
    {
      hide Shape; hide Swapped; hide GetPtr; hide NewNodePtr; hide QueueOf;
      while true
        invariant Valid() && Contents() == old(Contents()) && (!old(Lagging()) ==> !Lagging())
        decreases |c.chain| - c.t
      {
        var first := head;
        var last := tail;
        TakeRead(Memory(), c);
        var next := heap[GetPtr(track, first)].next;
        if first == head {
          ghost var before := Memory();
          if first == last {
            if next == 0 {
              return None;
            }
            var swung := SwingTail(last, next);
            c := HelpTail(before, c, next, Memory());
          } else {
            var value := heap[GetPtr(track, next)].value;
            var swung := SwingHead(first, next);
            if swung {
              heap := heap - {GetPtr(track, first)};
              c := TakeFrees(before, c, next, Memory());
              return Some(value);
            }
          }
        }
      }
    }

    // None stands for the process exit when sizes are not tracked.
    method Size() returns (size: Option<uint32>)
      requires Valid()
      ensures size.None? <==> !track
      ensures size.Some? && !Lagging() ==> Total(size.value) == AnswerOf(Contents(), OpSize)
    {
      if !track { return None; }
      size := Some(SizeOf(Memory()));
      if !Lagging() { SizeInOneState(Memory(), c); }
    }
  }

  // A Put that has its node and has not linked it: the queue is still q.
  ghost predicate Pending<D>(g: Shared<D>, c: History, address: nat, item: Item<D>, q: seq<Item<D>>) {
    && Shape(g, c) && c.h == 0
    && g.heap.Keys == NodeSet(c.chain) + {address}
    && address !in c.chain && ValidPtr(g.track, address)
    && g.heap[address] == Node(item.value, 0)
    && QueueOf(g, c) == q
  }

  // A Put that has linked its node and has not swung the tail to it.
  ghost predicate Linkable<D>(g: Shared<D>, c: History, node: Word, q: seq<Item<D>>) {
    && Shape(g, c) && c.h == 0 && c.t + 2 == |c.chain|
    && g.heap.Keys == NodeSet(c.chain)
    && Follows(g.track, c, c.t, node)
    && QueueOf(g, c) == q
  }

  lemma PendingStart<D>(g: Shared<D>, c: History, g': Shared<D>, address: nat, item: Item<D>)
    requires Shape(g, c) && c.h == 0 && g.heap.Keys == NodeSet(c.chain)
    requires Fresh(g, address) && g' == g.(heap := g.heap[address := Node(item.value, 0)])
    ensures Pending(g', c, address, item, QueueOf(g, c))
  {
    hide At; hide LinkTo;
    LinksStay(g, c, g', c);
    assert Items(g'.heap, c.chain, c.sizes, 0) == Items(g.heap, c.chain, c.sizes, 0);
  }

  lemma PendingRead<D>(g: Shared<D>, c: History, address: nat, item: Item<D>, q: seq<Item<D>>)
    requires Pending(g, c, address, item, q)
    ensures GetPtr(g.track, g.tail) in g.heap
    ensures var next := g.heap[GetPtr(g.track, g.tail)].next;
      if next == 0 then c.t + 1 == |c.chain| else Follows(g.track, c, c.t, next)
  {
    hide At; hide LinkTo; hide GetPtr; hide NewNodePtr;
    WordsName(g.track, c, c.t, c.t);
    assert Linked(g, c, c.t);
    if c.t + 1 < |c.chain| { WordsName(g.track, c, c.t + 1, c.t + 1); }
  }

  // Swinging a lagging tail changes nothing but its place.
  lemma HelpTail<D>(g: Shared<D>, c: History, next: Word, g': Shared<D>) returns (c': History)
    requires Shape(g, c) && Follows(g.track, c, c.t, next) && g' == SwapTail(g, g.tail, next)
    ensures Shape(g', c') && QueueOf(g', c') == QueueOf(g, c)
    ensures c' == c.(t := c.t + 1) && c'.t < |c.chain| && g'.heap == g.heap
  {
    hide At; hide LinkTo; hide GetPtr; hide NewNodePtr; hide Swapped;
    c' := if g'.tail != g.tail then c.(t := c.t + 1) else c;
    TailMoves(g, c, g.tail, next, c.t, g', c', 0);
  }

  lemma PendingLink<D>(g: Shared<D>, c: History, g': Shared<D>, address: nat, item: Item<D>, q: seq<Item<D>>) returns (c': History)
    requires Pending(g, c, address, item, q) && c.t + 1 == |c.chain|
    requires var p, node := GetPtr(g.track, g.tail), NewNodePtr(g.track, address, item.size);
      p in g.heap && g' == g.(heap := g.heap[p := g.heap[p].(next := Swapped(g.track, 0, node))])
    ensures Linkable(g', c', NewNodePtr(g.track, address, item.size), q + [item])
  {
    hide At; hide LinkTo; hide GetPtr; hide NewNodePtr; hide Swapped;
    WordsName(g.track, c, c.t, c.t);
    SwapAdds(g.track, address, item.size, address, item.size);
    c' := c.(chain := c.chain + [address], sizes := c.sizes + [item.size]);
    LinkKeepsShape(g, c, address, item.size, g', c');
    assert Items(g'.heap, c'.chain, c'.sizes, 0) == Items(g.heap, c.chain, c.sizes, 0) + [item];
  }

  // What Take finds at the head of a valid queue.
  lemma TakeRead<D>(g: Shared<D>, c: History)
    requires Shape(g, c) && c.h == 0
    ensures GetPtr(g.track, g.head) == c.chain[0] && c.chain[0] in g.heap
    ensures c.t < |c.chain| && (g.head == g.tail <==> c.t == 0)
    ensures g.heap[c.chain[0]].next == 0 ==> QueueOf(g, c) == [] && c.t == 0
    ensures var next := g.heap[c.chain[0]].next; next != 0 ==>
      && Follows(g.track, c, 0, next) && QueueOf(g, c) != []
      && GetPtr(g.track, next) in g.heap
      && g.heap[GetPtr(g.track, next)].value == QueueOf(g, c)[0].value
  {
    hide At; hide LinkTo; hide GetPtr; hide NewNodePtr;
    WordsName(g.track, c, 0, c.t);
    assert Linked(g, c, 0);
    if |c.chain| > 1 { WordsName(g.track, c, 1, 1); }
  }

  // Moving head over its link takes the first item out.
  lemma HeadMoves<D>(g: Shared<D>, c: History, next: Word, g': Shared<D>)
    requires Shape(g, c) && c.h == 0 < c.t && Follows(g.track, c, 0, next)
    requires g' == SwapHead(g, g.head, next)
    ensures Shape(g', c.(h := 1)) && QueueOf(g, c) != [] && QueueOf(g', c.(h := 1)) == QueueOf(g, c)[1..]
  {
    hide At; hide LinkTo; hide GetPtr; hide NewNodePtr; hide Swapped;
    SwapAdvances(g.track, c, 0);
    LinksStay(g, c, g', c.(h := 1));
  }

  // Freeing the node head named leaves a queue of the same form, one node shorter.
  lemma TakeFrees<D>(g: Shared<D>, c: History, next: Word, g': Shared<D>) returns (c': History)
    requires Shape(g, c) && c.h == 0 < c.t && Follows(g.track, c, 0, next) && g.heap.Keys == NodeSet(c.chain)
    requires g' == SwapHead(g, g.head, next).(heap := g.heap - {c.chain[0]})
    ensures Shape(g', c') && c'.h == 0 && g'.heap.Keys == NodeSet(c'.chain)
    ensures QueueOf(g, c) != [] && QueueOf(g', c') == QueueOf(g, c)[1..]
    ensures |c'.chain| - c'.t == |c.chain| - c.t
  {
    hide NodeSet; hide At; hide LinkTo; hide GetPtr; hide NewNodePtr; hide Swapped; hide QueueOf; hide Linked; hide Follows;
    var g1, c1 := SwapHead(g, g.head, next), c.(h := 1);
    HeadMoves(g, c, next, g1);
    FreeKeepsShape(g1, c1, g');
    c' := Freed(c1);
    FreedNodes(c.chain);
  }

  lemma FreedNodes(chain: seq<nat>)
    requires chain != [] && forall i, j :: 0 <= i < j < |chain| ==> chain[i] != chain[j]
    ensures NodeSet(chain) - {chain[0]} == NodeSet(chain[1..])
  {
    assert chain == [chain[0]] + chain[1..];
  }

  // --- Mutex build --------------------------------------------------------------------------------

  const MAX_LOCK_RETRIES: nat := 10

  // One of the ten attempts finds the mutex free.
  predicate Lockable(busy: nat -> bool) {
    exists k: nat :: k < MAX_LOCK_RETRIES && !busy(k)
  }

  /** The mutex CConcurrentQueue. Whether attempt k to lock finds the mutex taken is `busy(k)`. */
  class MutexQueue<D> {
    var queue: seq<Item<D>>
    var total: uint32

    ghost predicate Valid()
      reads this
    {
      total == TotalSize(queue) % W
    }

    constructor ()
      ensures Valid() && queue == []
    {
      queue, total := [], 0;
    }

    // Stops after at most ten failed attempts, and then changes nothing.
    method Put(data: D, size: uint32, busy: nat -> bool) returns (ok: bool, attempts: nat)
      requires Valid()
      modifies this
      ensures Valid()
      ensures ok <==> Lockable(busy)
      ensures 0 < attempts <= MAX_LOCK_RETRIES && forall k: nat :: k < attempts - 1 ==> busy(k)
      ensures ok == !busy(attempts - 1)
      ensures if ok then queue == old(queue) + [Item(data, size)]
              else queue == old(queue) && total == old(total)
    {
      var retries := 0;
      while busy(retries)
        invariant retries < MAX_LOCK_RETRIES && forall k: nat :: k < retries ==> busy(k)
        decreases MAX_LOCK_RETRIES - retries
      {
        retries := retries + 1;
        if retries >= MAX_LOCK_RETRIES {
          return false, retries;
        }
      }
      queue := queue + [Item(data, size)];
      total := (total + size) % W;
      TotalSizeSplits(old(queue), [Item(data, size)]);
      TotalSizeOfOne(Item(data, size));
      ModAdd(TotalSize(old(queue)), size);
      return true, retries + 1;
    }

    method Take() returns (result: Option<D>)
      requires Valid()
      modifies this
      ensures Valid() && queue == After(old(queue), OpTake)
      ensures Taken(result) == AnswerOf(old(queue), OpTake)
    {
      if queue == [] {
        return None;
      }
      var first := queue[0];
      queue := queue[1..];
      total := (total + W - first.size) % W;
      result := Some(first.value);
      assert old(queue) == [first] + queue;
      TotalSizeOfOne(first);
      TotalSizeSplits([first], queue);
      ModDiff(first.size, TotalSize(queue));
    }

    method Size() returns (size: uint32)
      requires Valid()
      ensures Total(size) == AnswerOf(queue, OpSize)
    {
      size := total;
    }
  }

  // --- Agreement -------------------------------------------------------------------------------

  /**
   Any single-threaded sequence of calls gets the same answers from both builds, and they are the
   answers of one FIFO sequence.
   */
  method BothBuildsAgree<D(0)>(ops: seq<Op<D>>, dummy: D) returns (lockFree: seq<Answer<D>>, mutex: seq<Answer<D>>)
    requires Fits(ops)
    ensures lockFree == mutex == Answers([], ops)
  {
    var a := new LockFreeQueue<D>(true, 1, dummy);
    var b := new MutexQueue<D>();
    lockFree, mutex := [], [];
    for i := 0 to |ops|
      invariant a.Valid() && !a.Lagging() && a.track && a.Contents() == AfterAll([], ops[..i])
      invariant b.Valid() && b.queue == AfterAll([], ops[..i])
      invariant lockFree == mutex == Answers([], ops[..i])
    {
      assert ops[..i + 1][..i] == ops[..i];
      var x, y := CallBoth(a, b, ops[i]);
      lockFree, mutex := lockFree + [x], mutex + [y];
    }
    assert ops[..|ops|] == ops;
  }

  method CallBoth<D(0)>(a: LockFreeQueue<D>, b: MutexQueue<D>, op: Op<D>) returns (x: Answer<D>, y: Answer<D>)
    requires a.Valid() && !a.Lagging() && a.track && b.Valid() && a.Contents() == b.queue
    requires op.OpPut? ==> |b.queue| + 2 < W
    modifies a, b
    ensures a.Valid() && !a.Lagging() && b.Valid()
    ensures a.Contents() == b.queue == After(old(b.queue), op)
    ensures x == y == AnswerOf(old(b.queue), op)
  {
    match op {
      case OpPut(item) =>
        var ok := a.Put(item.value, item.size);
        var ok', attempts := b.Put(item.value, item.size, (k: nat) => false);
        x, y := Stored(ok), Stored(ok');
      case OpTake =>
        var r := a.Take();
        var r' := b.Take();
        x, y := Taken(r), Taken(r');
      case OpSize =>
        var n := a.Size();
        var n' := b.Size();
        x, y := Total(n.value), Total(n');
    }
  }
}
