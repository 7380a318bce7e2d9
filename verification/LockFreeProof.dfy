/**
 The lock-free queue refines the atomic queue of QueueSpec: every run, under every interleaving,
 is a run of the atomic queue with the same events.
 */
module LockFreeProof {
  import opened Common
  import opened PackedWords
  import opened QueueSpec
  import opened LockFreeMachine

  /**
   What an observer remembers of a run; no step of the machine reads it. The chain lists every
   node ever linked, oldest first, `h` and `t` are the places of head and tail in it.
   */
  datatype History = History(chain: seq<nat>, sizes: seq<uint32>, h: nat, t: nat) {
    predicate Has(j: int) {
      0 <= j < |chain| == |sizes|
    }
  }

  // The head or tail word that names node j: its counter is the sum of all sizes up to it.
  function At(track: bool, c: History, j: int): Word
    requires c.Has(j)
  {
    NewNodePtr(track, c.chain[j], Sum(c.sizes[..j + 1]) % W)
  }

  // The link word that names node j: its counter is the size of that node alone.
  function LinkTo(track: bool, c: History, j: int): Word
    requires c.Has(j)
  {
    NewNodePtr(track, c.chain[j], c.sizes[j])
  }

  // The nodes form one chain; head never passes tail and tail is at most one node behind the last.
  ghost predicate Shape<D>(g: Shared<D>, c: History) {
    && |c.chain| == |c.sizes|
    && c.h <= c.t < |c.chain| <= c.t + 2
    && (forall i, j :: 0 <= i < j < |c.chain| ==> c.chain[i] != c.chain[j])
    && (forall i :: 0 <= i < |c.chain| ==> ValidPtr(g.track, c.chain[i]) && c.chain[i] in g.heap)
    && g.head == At(g.track, c, c.h)
    && g.tail == At(g.track, c, c.t)
    && (forall i :: 0 <= i < |c.chain| ==> Linked(g, c, i))
  }

  ghost predicate Linked<D>(g: Shared<D>, c: History, i: int)
    requires c.Has(i) && c.chain[i] in g.heap
  {
    g.heap[c.chain[i]].next == NextOf(g.track, c, i)
  }

  function NextOf(track: bool, c: History, i: int): Word
    requires c.Has(i)
  {
    if i + 1 < |c.chain| then LinkTo(track, c, i + 1) else 0
  }

  lemma WordsName(track: bool, c: History, i: int, j: int)
    requires c.Has(i) && c.Has(j)
    requires forall i, j :: 0 <= i < j < |c.chain| ==> c.chain[i] != c.chain[j]
    ensures At(track, c, i) == At(track, c, j) <==> i == j
    ensures GetPtr(track, At(track, c, i)) == c.chain[i]
    ensures GetPtr(track, LinkTo(track, c, i)) == c.chain[i]
    ensures ValidPtr(track, c.chain[i]) ==> LinkTo(track, c, i) != 0
  {
    Unpack(track, c.chain[i], Sum(c.sizes[..i + 1]) % W);
    Unpack(track, c.chain[i], c.sizes[i]);
    if At(track, c, i) == At(track, c, j) {
      PackInjective(track, c.chain[i], Sum(c.sizes[..i + 1]) % W, c.chain[j], Sum(c.sizes[..j + 1]) % W);
    }
  }

  // Swinging head or tail over one link adds exactly that node's size to its counter.
  lemma SwapAdvances(track: bool, c: History, j: int)
    requires 0 <= j && c.Has(j + 1)
    ensures Swapped(track, At(track, c, j), LinkTo(track, c, j + 1)) == At(track, c, j + 1)
  {
    var sum := Sum(c.sizes[..j + 1]);
    SwapAdds(track, c.chain[j], sum % W, c.chain[j + 1], c.sizes[j + 1]);
    assert c.sizes[..j + 2][..j + 1] == c.sizes[..j + 1];
    ModAdd(sum, c.sizes[j + 1]);
  }

  // --- What each thread relies on -------------------------------------------------------

  predicate BeforeLink<D>(l: Local<D>) {
    l.PutReadTail? || l.PutReadNext? || l.PutRecheck? || l.PutLink? || l.PutHelp?
  }

  // The node a thread has allocated and not yet linked, or 0.
  function Owned<D>(track: bool, l: Local<D>): nat {
    if BeforeLink(l) then GetPtr(track, l.args.node) else 0
  }

  ghost predicate Mine<D>(g: Shared<D>, c: History, a: PutArgs<D>) {
    var p := GetPtr(g.track, a.node);
    && ValidPtr(g.track, p) && p in g.heap && p !in c.chain
    && g.heap[p] == Node(a.data, 0)
    && a.node == NewNodePtr(g.track, p, a.size)
  }

  ghost predicate Follows(track: bool, c: History, j: int, next: Word) {
    0 <= j && c.Has(j + 1) && next == LinkTo(track, c, j + 1)
  }

  // The word w names node i, which is not beyond `limit`.
  ghost predicate Names(track: bool, c: History, i: int, limit: nat, w: Word) {
    0 <= i <= limit && c.Has(i) && w == At(track, c, i)
  }

  // Local l is consistent with its head word naming node i and its tail word naming node j.
  ghost predicate LocalAt<D>(g: Shared<D>, c: History, l: Local<D>, i: int, j: int) {
    && (BeforeLink(l) ==> Mine(g, c, l.args))
    && match l
       case PutReadNext(_, w) => Names(g.track, c, j, c.t, w)
       case PutRecheck(_, w, next) => Names(g.track, c, j, c.t, w) && (next == 0 || Follows(g.track, c, j, next))
       case PutLink(_, w) => Names(g.track, c, j, c.t, w)
       case PutHelp(_, w, next) => Names(g.track, c, j, c.t, w) && Follows(g.track, c, j, next)
       case PutSwing(a, w) => Names(g.track, c, j, c.t, w) && Follows(g.track, c, j, a.node)
       case PutReturn(a, _) => j <= c.t && Follows(g.track, c, j - 1, a.node)
       case TakeReadTail(w) => Names(g.track, c, i, c.h, w)
       case TakeReadNext(w, v) => Names(g.track, c, i, c.h, w) && Names(g.track, c, j, c.t, v) && i <= j
       case TakeRecheck(w, v, next) =>
         Names(g.track, c, i, c.h, w) && Names(g.track, c, j, c.t, v) && i <= j && if next == 0 then i == j else Follows(g.track, c, i, next)
       case TakeHelp(w, next) => Names(g.track, c, j, c.t, w) && Follows(g.track, c, j, next)
       case TakeReadValue(w, next) => Names(g.track, c, i, c.h, w) && i < c.t && Follows(g.track, c, i, next)
       case TakeSwing(w, next, v) =>
         Names(g.track, c, i, c.h, w) && i < c.t && Follows(g.track, c, i, next)
         && c.chain[i + 1] in g.heap && g.heap[c.chain[i + 1]].value == v
       case SizeReadHead(w) => g.track && Names(g.track, c, j, c.t, w)
       case SizeReadTail(w) => g.track && Names(g.track, c, i, c.h, w)
       case SizeStart(_) => g.track
       case _ => true
  }

  ghost predicate LocalOk<D>(g: Shared<D>, c: History, l: Local<D>) {
    exists i, j :: LocalAt(g, c, l, i, j)
  }

  // What every step guarantees to the other threads; p0 is the node the stepping thread may change.
  ghost predicate Evolves<D>(g: Shared<D>, c: History, g': Shared<D>, c': History, p0: nat) {
    && g'.track == g.track
    && c.chain <= c'.chain && c.sizes <= c'.sizes && |c.chain| == |c.sizes| && |c'.chain| == |c'.sizes|
    && c.h <= c'.h && c.t <= c'.t
    && (forall p :: p in g.heap ==> p in g'.heap && g'.heap[p].value == g.heap[p].value)
    && (forall p :: p in g.heap && p !in c.chain && p != p0 ==> p !in c'.chain && g'.heap[p] == g.heap[p])
  }

  lemma WordsStay<D>(g: Shared<D>, c: History, g': Shared<D>, c': History, p0: nat, j: int)
    requires Evolves(g, c, g', c', p0) && c.Has(j)
    ensures c'.Has(j) && At(g.track, c', j) == At(g.track, c, j) && LinkTo(g.track, c', j) == LinkTo(g.track, c, j)
    ensures c'.chain[j] == c.chain[j]
  {
    assert c'.sizes[..j + 1] == c.sizes[..j + 1];
  }

  lemma NamesStay<D>(g: Shared<D>, c: History, g': Shared<D>, c': History, p0: nat, j: int, limit: nat, limit': nat)
    requires Evolves(g, c, g', c', p0) && limit <= limit'
    ensures forall w :: Names(g.track, c, j, limit, w) ==> Names(g.track, c', j, limit', w)
  {
    if c.Has(j) { WordsStay(g, c, g', c', p0, j); }
  }

  lemma FollowsStay<D>(g: Shared<D>, c: History, g': Shared<D>, c': History, p0: nat, j: int)
    requires Evolves(g, c, g', c', p0)
    ensures forall w :: Follows(g.track, c, j, w) ==> Follows(g.track, c', j, w)
  {
    if c.Has(j + 1) { WordsStay(g, c, g', c', p0, j + 1); }
  }

  lemma LocalAtStays<D>(g: Shared<D>, c: History, g': Shared<D>, c': History, p0: nat, l: Local<D>, i: int, j: int)
    requires Evolves(g, c, g', c', p0) && LocalAt(g, c, l, i, j)
    requires Owned(g.track, l) != p0 || Owned(g.track, l) == 0
    ensures LocalAt(g', c', l, i, j)
  {
    NamesStay(g, c, g', c', p0, i, c.h, c'.h);
    NamesStay(g, c, g', c', p0, j, c.t, c'.t);
    FollowsStay(g, c, g', c', p0, i);
    FollowsStay(g, c, g', c', p0, j);
    FollowsStay(g, c, g', c', p0, j - 1);
    assert l.TakeSwing? ==> c.Has(i + 1);
    hide Names; hide Follows; hide NewNodePtr; hide GetPtr; hide ValidPtr;
  }

  lemma LocalStays<D>(g: Shared<D>, c: History, g': Shared<D>, c': History, p0: nat, l: Local<D>)
    requires Evolves(g, c, g', c', p0) && LocalOk(g, c, l)
    requires Owned(g.track, l) != p0 || Owned(g.track, l) == 0
    ensures LocalOk(g', c', l)
  {
    hide LocalAt; hide Owned;
    var i, j :| LocalAt(g, c, l, i, j);
    LocalAtStays(g, c, g', c', p0, l, i, j);
  }

  // --- The abstraction ---------------------------------------------------------------------

  // The values and sizes of the nodes after node h: the dummy that head names is not an item.
  function Items<D>(heap: map<nat, Node<D>>, chain: seq<nat>, sizes: seq<uint32>, h: nat): (items: seq<Item<D>>)
    requires |chain| == |sizes| && h < |chain|
    requires forall i :: 0 <= i < |chain| ==> chain[i] in heap
    ensures |items| == |chain| - 1 - h
    ensures forall k :: 0 <= k < |items| ==> items[k] == Item(heap[chain[h + 1 + k]].value, sizes[h + 1 + k])
  {
    seq(|chain| - 1 - h, k requires 0 <= k < |chain| - 1 - h => Item(heap[chain[h + 1 + k]].value, sizes[h + 1 + k]))
  }

  function QueueOf<D>(g: Shared<D>, c: History): seq<Item<D>>
    requires Shape(g, c)
  {
    Items(g.heap, c.chain, c.sizes, c.h)
  }

  function PhaseOf<D>(l: Local<D>): Phase<D> {
    match l
    case Resting => Idle
    case PutSwing(_, _) => Inserted
    case PutReturn(_, _) => Inserted
    case TakeRecheck(_, _, next) => if next == 0 then FoundEmpty else Taking
    case TakeReturn(r) => if r.Some? then Got(r.value) else FoundEmpty
    case SizeStart(_) => Sizing
    case SizeReadHead(_) => Sizing
    case SizeReadTail(_) => Sizing
    case SizeReturn(_) => Sizing
    case _ => if BeforeLink(l) then Putting(Item(l.args.data, l.args.size)) else Taking
  }

  function Observe<D>(c: History, g: Shared<D>, l: Local<D>, o: Outcome<D>): History
    requires o.Moved?
  {
    var linked := o.action.Enqueue? && BeforeLink(l);
    History(if linked then c.chain + [GetPtr(g.track, l.args.node)] else c.chain,
            if linked then c.sizes + [l.args.size] else c.sizes,
            if o.action.Dequeue? then c.h + 1 else c.h,
            if o.g.tail != g.tail then c.t + 1 else c.t)
  }

  // Thread-local l linked the last node and has yet to swing the tail to it.
  ghost predicate Swinging<D>(g: Shared<D>, c: History, l: Local<D>)
    requires Shape(g, c)
  {
    l.PutSwing? && l.args.node == LinkTo(g.track, c, |c.chain| - 1)
  }

  // One step of thread t, seen by itself, by the other threads and by the atomic queue.
  ghost predicate GoodStep<D>(g: Shared<D>, c: History, l: Local<D>, o: Outcome<D>, t: nat, phases: map<nat, Phase<D>>) {
    && Shape(g, c) && o.Moved?
    && var c' := Observe(c, g, l, o);
       && Shape(o.g, c')
       && LocalOk(o.g, c', o.local)
       && Evolves(g, c, o.g, c', Owned(g.track, l))
       && Accept(Abstract(QueueOf(g, c), phases), Event(t, o.action))
            == Some(Abstract(QueueOf(o.g, c'), phases[t := PhaseOf(o.local)]))
  }

  // Moving head or tail along the chain leaves every link as it was.
  lemma LinksStay<D>(g: Shared<D>, c: History, g': Shared<D>, c': History)
    requires Shape(g, c) && g'.track == g.track && c'.chain == c.chain && c'.sizes == c.sizes
    requires forall p :: p in g.heap ==> p in g'.heap && g'.heap[p] == g.heap[p]
    ensures forall i :: 0 <= i < |c'.chain| ==> Linked(g', c', i)
    ensures forall k {:trigger At(g.track, c', k)} :: c'.Has(k) ==> At(g.track, c', k) == At(g.track, c, k)
    ensures forall k {:trigger LinkTo(g.track, c', k)} :: c'.Has(k) ==> LinkTo(g.track, c', k) == LinkTo(g.track, c, k)
  {
    forall i | 0 <= i < |c'.chain|
      ensures Linked(g', c', i)
    {
      assert Linked(g, c, i);
    }
  }

  lemma AcceptQuiet<D>(a: Abstract<D>, t: nat, action: Action<D>, phase: Phase<D>)
    requires t in a.phases
    requires if action.Retry? then (a.phases[t].Taking? || a.phases[t].FoundEmpty?) && phase.Taking?
             else action.Tau? && phase == a.phases[t]
    ensures Accept(a, Event(t, action)) == Some(a.With(t, phase))
  {
    assert a.phases[t] == phase ==> a.phases[t := phase] == a.phases;
  }

  // Steps that change no shared word and take no effect.
  lemma QuietStep<D>(g: Shared<D>, c: History, l: Local<D>, o: Outcome<D>, i: int, j: int, t: nat, phases: map<nat, Phase<D>>)
    requires Shape(g, c) && o.Moved? && o.g == g && LocalAt(g, c, o.local, i, j)
    requires t in phases && phases[t] == PhaseOf(l)
    requires if o.action.Retry? then (PhaseOf(l).Taking? || PhaseOf(l).FoundEmpty?) && PhaseOf(o.local).Taking?
             else o.action.Tau? && PhaseOf(o.local) == PhaseOf(l)
    ensures GoodStep(g, c, l, o, t, phases)
  {
    AcceptQuiet(Abstract(QueueOf(g, c), phases), t, o.action, PhaseOf(o.local));
  }

  // Swinging the tail over a link, or failing to: either way the tail is past node j afterwards.
  lemma TailMoves<D>(g: Shared<D>, c: History, w: Word, next: Word, j: int, g': Shared<D>, c': History, p0: nat)
    requires Shape(g, c) && g' == SwapTail(g, w, next)
    requires Names(g.track, c, j, c.t, w) && Follows(g.track, c, j, next)
    requires c' == if g'.tail != g.tail then c.(t := c.t + 1) else c
    ensures Shape(g', c') && c'.t > j && Evolves(g, c, g', c', p0) && QueueOf(g', c') == QueueOf(g, c)
    ensures Follows(g.track, c', j, next)
  {
    hide At; hide LinkTo; hide NewNodePtr; hide GetPtr; hide Swapped;
    WordsName(g.track, c, j, c.t);
    WordsName(g.track, c, j, j + 1);
    SwapAdvances(g.track, c, j);
    LinksStay(g, c, g', c');
  }

  lemma TailStep<D>(g: Shared<D>, c: History, l: Local<D>, o: Outcome<D>, w: Word, next: Word, j: int, t: nat, phases: map<nat, Phase<D>>)
    requires Shape(g, c) && o.Moved? && o.g == SwapTail(g, w, next)
    requires Names(g.track, c, j, c.t, w) && Follows(g.track, c, j, next)
    requires o.local.PutReadTail? || o.local.TakeReadHead? || (o.local.PutReturn? && o.local.args.node == next)
    requires o.local.PutReadTail? ==> Mine(g, c, o.local.args)
    requires t in phases && phases[t] == PhaseOf(l) == PhaseOf(o.local)
    requires o.action.Tau? || (o.action.Retry? && PhaseOf(l).Taking?)
    ensures GoodStep(g, c, l, o, t, phases)
    ensures Observe(c, g, l, o).t > j
  {
    hide NewNodePtr; hide GetPtr; hide Swapped; hide Accept; hide PhaseOf; hide QueueOf; hide Shape; hide Evolves; hide Follows; hide At;
    var c' := Observe(c, g, l, o);
    TailMoves(g, c, w, next, j, o.g, c', Owned(g.track, l));
    assert LocalAt(o.g, c', o.local, 0, j + 1);
    AcceptQuiet(Abstract(QueueOf(g, c), phases), t, o.action, PhaseOf(o.local));
  }

  // Linking node p after the last one keeps the chain and every word into it.
  lemma LinkKeepsShape<D>(g: Shared<D>, c: History, p: nat, size: uint32, g': Shared<D>, c': History)
    requires Shape(g, c) && c.t + 1 == |c.chain|
    requires ValidPtr(g.track, p) && p in g.heap && p !in c.chain && g.heap[p].next == 0
    requires c' == c.(chain := c.chain + [p], sizes := c.sizes + [size])
    requires var last := c.chain[c.t];
      g' == g.(heap := g.heap[last := g.heap[last].(next := NewNodePtr(g.track, p, size))])
    ensures Shape(g', c') && LinkTo(g.track, c', c.t + 1) == NewNodePtr(g.track, p, size)
    ensures At(g.track, c', c.t) == At(g.track, c, c.t)
  {
    hide NewNodePtr; hide Sum;
    forall k | 0 <= k < |c.chain|
      ensures At(g.track, c', k) == At(g.track, c, k) && LinkTo(g.track, c', k) == LinkTo(g.track, c, k)
    {
      assert c'.sizes[..k + 1] == c.sizes[..k + 1];
    }
    forall k | 0 <= k < |c'.chain|
      ensures Linked(g', c', k)
    {
      if k < |c.chain| { assert Linked(g, c, k); }
    }
  }

  lemma LinkStep<D>(g: Shared<D>, c: History, l: Local<D>, j: int, t: nat, phases: map<nat, Phase<D>>)
    requires Shape(g, c) && l.PutLink? && LocalAt(g, c, l, 0, j)
    requires t in phases && phases[t] == PhaseOf(l)
    ensures var o := PutStep(g, l);
      GoodStep(g, c, l, o, t, phases) && (o.action.Enqueue? ==> Swinging(o.g, Observe(c, g, l, o), o.local))
  {
    hide At; hide LinkTo; hide NewNodePtr; hide GetPtr; hide Swapped; hide ValidPtr;
    var a, o := l.args, PutStep(g, l);
    var p := GetPtr(g.track, a.node);
    WordsName(g.track, c, j, j);
    assert Linked(g, c, j);
    if j + 1 < |c.chain| {
      WordsName(g.track, c, j + 1, j + 1);
      QuietStep(g, c, l, o, 0, j, t, phases);
    } else {
      var c' := Observe(c, g, l, o);
      SwapAdds(g.track, p, a.size, p, a.size);
      LinkKeepsShape(g, c, p, a.size, o.g, c');
      assert LocalAt(o.g, c', o.local, 0, j);
      assert QueueOf(o.g, c') == QueueOf(g, c) + [Item(a.data, a.size)];
    }
  }

  lemma PutStepIsGood<D>(g: Shared<D>, c: History, l: Local<D>, i: int, j: int, t: nat, phases: map<nat, Phase<D>>)
    requires Shape(g, c) && LocalAt(g, c, l, i, j)
    requires BeforeLink(l) || l.PutSwing?
    requires t in phases && phases[t] == PhaseOf(l)
    ensures var o := PutStep(g, l);
      GoodStep(g, c, l, o, t, phases) && (o.action.Enqueue? ==> Swinging(o.g, Observe(c, g, l, o), o.local))
    ensures l.PutSwing? ==> Observe(c, g, l, PutStep(g, l)).t > j
  {
    hide At; hide LinkTo; hide NewNodePtr; hide GetPtr; hide Swapped; hide Accept; hide QueueOf;
    var o := PutStep(g, l);
    match l
    case PutReadTail(_) => QuietStep(g, c, l, o, 0, c.t, t, phases);
    case PutReadNext(_, _) =>
      WordsName(g.track, c, j, j);
      assert Linked(g, c, j);
      QuietStep(g, c, l, o, 0, j, t, phases);
    case PutRecheck(_, _, _) => QuietStep(g, c, l, o, 0, j, t, phases);
    case PutLink(_, _) => LinkStep(g, c, l, j, t, phases);
    case PutHelp(_, tail, next) => TailStep(g, c, l, o, tail, next, j, t, phases);
    case PutSwing(a, tail) => TailStep(g, c, l, o, tail, a.node, j, t, phases);
  }

  // Swinging the head over its link: the swinging thread takes out the value it read.
  lemma SwingStep<D>(g: Shared<D>, c: History, l: Local<D>, i: int, t: nat, phases: map<nat, Phase<D>>)
    requires Shape(g, c) && l.TakeSwing? && LocalAt(g, c, l, i, 0)
    requires t in phases && phases[t] == PhaseOf(l)
    ensures GoodStep(g, c, l, TakeStep(g, l), t, phases) && !TakeStep(g, l).action.Enqueue?
  {
    hide At; hide LinkTo; hide NewNodePtr; hide GetPtr; hide Swapped;
    var o := TakeStep(g, l);
    WordsName(g.track, c, i, c.h);
    if i == c.h {
      var c' := Observe(c, g, l, o);
      SwapAdvances(g.track, c, i);
      WordsName(g.track, c, i + 1, i + 1);
      LinksStay(g, c, o.g, c');
      assert LocalAt(o.g, c', o.local, 0, 0);
      assert QueueOf(g, c)[0].value == l.value;
      assert QueueOf(o.g, c') == QueueOf(g, c)[1..];
    } else {
      QuietStep(g, c, l, o, 0, 0, t, phases);
    }
  }

  // Reading a null link: the node read is the last one and head has reached it, so the queue is empty now.
  lemma ReadNextStep<D>(g: Shared<D>, c: History, l: Local<D>, i: int, j: int, t: nat, phases: map<nat, Phase<D>>)
    requires Shape(g, c) && l.TakeReadNext? && LocalAt(g, c, l, i, j)
    requires t in phases && phases[t] == PhaseOf(l)
    ensures GoodStep(g, c, l, TakeStep(g, l), t, phases) && !TakeStep(g, l).action.Enqueue?
    ensures TakeStep(g, l).action.SawEmpty? ==> QueueOf(g, c) == []
  {
    hide At; hide LinkTo; hide NewNodePtr; hide GetPtr; hide Swapped;
    var o := TakeStep(g, l);
    WordsName(g.track, c, i, i);
    assert Linked(g, c, i);
    if i + 1 < |c.chain| { WordsName(g.track, c, i + 1, i + 1); }
    assert LocalAt(g, c, o.local, i, j);
    if o.action.Tau? {
      QuietStep(g, c, l, o, i, j, t, phases);
    }
  }

  // The re-check: a null link is only acted on when head and tail still name the same node.
  lemma RecheckStep<D>(g: Shared<D>, c: History, l: Local<D>, i: int, j: int, t: nat, phases: map<nat, Phase<D>>)
    requires Shape(g, c) && l.TakeRecheck? && LocalAt(g, c, l, i, j)
    requires t in phases && phases[t] == PhaseOf(l)
    ensures GoodStep(g, c, l, TakeStep(g, l), t, phases) && !TakeStep(g, l).action.Enqueue?
    ensures TakeStep(g, l).local == TakeReturn(None) <==> l.next == 0 && l.head == g.head
    ensures l.next == 0 ==> l.head == l.tail
  {
    hide At; hide LinkTo; hide NewNodePtr; hide GetPtr; hide Swapped; hide Accept; hide GoodStep; hide Linked; hide QueueOf;
    var o := TakeStep(g, l);
    WordsName(g.track, c, i, j);
    assert LocalAt(g, c, o.local, i, j);
    QuietStep(g, c, l, o, i, j, t, phases);
  }

  lemma TakeStepIsGood<D>(g: Shared<D>, c: History, l: Local<D>, i: int, j: int, t: nat, phases: map<nat, Phase<D>>)
    requires Shape(g, c) && LocalAt(g, c, l, i, j)
    requires l.TakeReadHead? || l.TakeReadTail? || l.TakeReadNext? || l.TakeRecheck? || l.TakeHelp? || l.TakeReadValue? || l.TakeSwing?
    requires t in phases && phases[t] == PhaseOf(l)
    ensures GoodStep(g, c, l, TakeStep(g, l), t, phases) && !TakeStep(g, l).action.Enqueue?
  {
    hide At; hide LinkTo; hide NewNodePtr; hide GetPtr; hide Swapped; hide Accept; hide GoodStep; hide Linked; hide QueueOf;
    var o := TakeStep(g, l);
    match l
    case TakeReadHead => QuietStep(g, c, l, o, c.h, 0, t, phases);
    case TakeReadTail(_) => QuietStep(g, c, l, o, i, c.t, t, phases);
    case TakeReadNext(_, _) => ReadNextStep(g, c, l, i, j, t, phases);
    case TakeRecheck(_, _, _) => RecheckStep(g, c, l, i, j, t, phases);
    case TakeHelp(tail, next) => TailStep(g, c, l, o, tail, next, j, t, phases);
    case TakeReadValue(_, _) =>
      WordsName(g.track, c, i + 1, i + 1);
      QuietStep(g, c, l, o, i, j, t, phases);
    case TakeSwing(_, _, _) => SwingStep(g, c, l, i, t, phases);
  }

  // A load of Size changes nothing.
  lemma SizeStepIsGood<D>(g: Shared<D>, c: History, l: Local<D>, i: int, j: int, t: nat, phases: map<nat, Phase<D>>)
    requires Shape(g, c) && LocalAt(g, c, l, i, j)
    requires l.SizeStart? || l.SizeReadHead? || l.SizeReadTail?
    requires t in phases && phases[t] == PhaseOf(l)
    ensures GoodStep(g, c, l, SizeStep(g, l), t, phases) && !SizeStep(g, l).action.Enqueue?
  {
    hide At; hide LinkTo; hide NewNodePtr; hide GetPtr; hide Accept; hide GoodStep; hide Linked; hide QueueOf; hide SizeBetween;
    QuietStep(g, c, l, SizeStep(g, l), c.h, c.t, t, phases);
  }

  // A Put that begins: its node is in the heap and nowhere else.
  lemma BeginPutIsGood<D>(g: Shared<D>, c: History, item: Item<D>, address: nat, t: nat, phases: map<nat, Phase<D>>)
    requires Shape(g, c) && Fresh(g, address)
    requires t in phases && phases[t].Idle?
    ensures GoodStep(g, c, Resting, BeginPut(g, item, address), t, phases)
  {
    hide At; hide LinkTo; hide Swapped;
    var o := BeginPut(g, item, address);
    Unpack(g.track, address, item.size);
    hide NewNodePtr; hide GetPtr;
    assert Observe(c, g, Resting, o) == c;
    LinksStay(g, c, o.g, c);
    assert LocalAt(o.g, c, o.local, 0, 0);
    assert QueueOf(o.g, c) == QueueOf(g, c);
  }

  lemma BoundaryAccepted<D>(queue: seq<Item<D>>, g: Shared<D>, l: Local<D>, o: Outcome<D>, t: nat, phases: map<nat, Phase<D>>)
    requires l.Resting? || l.PutReturn? || l.TakeReturn? || l.SizeReturn?
    requires o.Moved? && LocalStep(g, l, o.action, o) && !o.action.CallPut?
    requires t in phases && phases[t] == PhaseOf(l)
    ensures o.g == g && !BeforeLink(o.local) && !o.action.Enqueue? && !o.action.Dequeue?
    ensures Accept(Abstract(queue, phases), Event(t, o.action)) == Some(Abstract(queue, phases[t := PhaseOf(o.local)]))
    ensures forall c: History :: LocalAt(g, c, o.local, 0, 0)
  {
  }

  // Calls and returns.
  lemma BoundaryStepIsGood<D>(g: Shared<D>, c: History, l: Local<D>, o: Outcome<D>, t: nat, phases: map<nat, Phase<D>>)
    requires Shape(g, c) && LocalOk(g, c, l)
    requires l.Resting? || l.PutReturn? || l.TakeReturn? || l.SizeReturn?
    requires o.Moved? && LocalStep(g, l, o.action, o)
    requires t in phases && phases[t] == PhaseOf(l)
    ensures GoodStep(g, c, l, o, t, phases)
  {
    assert |c.chain| == |c.sizes|;
    if o.action.CallPut? {
      BeginPutIsGood(g, c, o.action.item, o.action.address, t, phases);
    } else {
      BoundaryAccepted(QueueOf(g, c), g, l, o, t, phases);
      hide Accept; hide LocalStep; hide LocalAt; hide Shape; hide QueueOf; hide PhaseOf;
      assert LocalAt(g, c, o.local, 0, 0);
    }
  }

  // --- All threads together -------------------------------------------------------------------

  ghost predicate Inv<D>(s: System<D>, c: History) {
    && Shape(s.g, c)
    && (forall u :: u in s.threads ==> LocalOk(s.g, c, s.threads[u]))
    && (forall u, v :: u in s.threads && v in s.threads && u != v ==>
          Owned(s.g.track, s.threads[u]) != Owned(s.g.track, s.threads[v]) || Owned(s.g.track, s.threads[u]) == 0)
    && (c.t + 1 == |c.chain| || exists u :: u in s.threads && Swinging(s.g, c, s.threads[u]))
  }

  function Abs<D>(s: System<D>, c: History): Abstract<D>
    requires Shape(s.g, c)
  {
    Abstract(QueueOf(s.g, c), map u | u in s.threads :: PhaseOf(s.threads[u]))
  }

  lemma StepIsGood<D>(s: System<D>, c: History, o: Outcome<D>, t: nat)
    requires Inv(s, c) && t in s.threads && o.Moved? && LocalStep(s.g, s.threads[t], o.action, o)
    ensures GoodStep(s.g, c, s.threads[t], o, t, Abs(s, c).phases)
    ensures Swinging(s.g, c, s.threads[t]) ==> Observe(c, s.g, s.threads[t], o).t + 1 >= |c.chain|
    ensures o.action.Enqueue? ==> Swinging(o.g, Observe(c, s.g, s.threads[t], o), o.local)
  {
    hide At; hide LinkTo; hide NewNodePtr; hide GetPtr; hide Accept; hide GoodStep; hide LocalAt; hide PutStep; hide TakeStep; hide SizeStep;
    var l, phases := s.threads[t], Abs(s, c).phases;
    var i, j :| LocalAt(s.g, c, l, i, j);
    if l.Resting? || l.PutReturn? || l.TakeReturn? || l.SizeReturn? {
      BoundaryStepIsGood(s.g, c, l, o, t, phases);
    } else if BeforeLink(l) || l.PutSwing? {
      PutStepIsGood(s.g, c, l, i, j, t, phases);
      if Swinging(s.g, c, l) { SwingingNamesLast(s.g, c, l, i, j); }
    } else if l.SizeStart? || l.SizeReadHead? || l.SizeReadTail? {
      SizeStepIsGood(s.g, c, l, i, j, t, phases);
    } else {
      TakeStepIsGood(s.g, c, l, i, j, t, phases);
    }
  }

  lemma SwingingNamesLast<D>(g: Shared<D>, c: History, l: Local<D>, i: int, j: int)
    requires Shape(g, c) && LocalAt(g, c, l, i, j) && Swinging(g, c, l)
    ensures j + 2 == |c.chain|
  {
    WordsName(g.track, c, j + 1, j + 1);
    WordsName(g.track, c, |c.chain| - 1, |c.chain| - 1);
  }

  // A step gives away the node it owned, keeps it, or takes one that was nowhere in the heap.
  lemma OwnershipStep<D>(g: Shared<D>, l: Local<D>, o: Outcome<D>)
    requires o.Moved? && LocalStep(g, l, o.action, o)
    ensures Owned(g.track, o.local) == 0 || Owned(g.track, o.local) == Owned(g.track, l)
         || Owned(g.track, o.local) !in g.heap
  {
    if o.action.CallPut? {
      Unpack(g.track, o.action.address, o.action.item.size);
    }
  }

  lemma OwnedIsInHeap<D>(g: Shared<D>, c: History, l: Local<D>)
    requires LocalOk(g, c, l) && BeforeLink(l)
    ensures Owned(g.track, l) in g.heap
  {
  }

  lemma OthersStay<D>(s: System<D>, c: History, o: Outcome<D>, t: nat)
    requires Inv(s, c) && t in s.threads && o.Moved? && LocalStep(s.g, s.threads[t], o.action, o)
    requires GoodStep(s.g, c, s.threads[t], o, t, Abs(s, c).phases)
    ensures var c', after := Observe(c, s.g, s.threads[t], o), s.threads[t := o.local];
      && (forall u :: u in after ==> LocalOk(o.g, c', after[u]))
      && (forall u, v :: u in after && v in after && u != v ==>
            Owned(s.g.track, after[u]) != Owned(s.g.track, after[v]) || Owned(s.g.track, after[u]) == 0)
  {
    hide At; hide LinkTo; hide NewNodePtr; hide GetPtr; hide Accept; hide QueueOf; hide LocalStep; hide Observe; hide LocalOk; hide Shape;
    var l := s.threads[t];
    OwnershipStep(s.g, l, o);
    forall u | u in s.threads && u != t
      ensures LocalOk(o.g, Observe(c, s.g, l, o), s.threads[u])
      ensures Owned(s.g.track, s.threads[u]) != Owned(s.g.track, o.local) || Owned(s.g.track, s.threads[u]) == 0
    {
      LocalStays(s.g, c, o.g, Observe(c, s.g, l, o), Owned(s.g.track, l), s.threads[u]);
      if BeforeLink(s.threads[u]) { OwnedIsInHeap(s.g, c, s.threads[u]); }
    }
  }

  // Every step keeps the invariant and is the step of the atomic queue that its event names.
  lemma StepRefines<D(!new)>(s: System<D>, c: History, e: Event<D>, s': System<D>, o: Outcome<D>)
    requires Inv(s, c) && e.thread in s.threads
    requires LocalStep(s.g, s.threads[e.thread], e.action, o) && s' == System(o.g, s.threads[e.thread := o.local])
    ensures var c' := Observe(c, s.g, s.threads[e.thread], o);
      Inv(s', c') && Accept(Abs(s, c), e) == Some(Abs(s', c'))
  {
    hide Accept; hide PhaseOf; hide QueueOf; hide Shape; hide Evolves; hide Owned; hide LocalOk; hide Swinging; hide Observe;
    StepIsGood(s, c, o, e.thread);
    OthersStay(s, c, o, e.thread);
    LagHasAWitness(s, c, o, e.thread);
    assert Abs(s', Observe(c, s.g, s.threads[e.thread], o)).phases == Abs(s, c).phases[e.thread := PhaseOf(o.local)];
  }

  lemma LagHasAWitness<D>(s: System<D>, c: History, o: Outcome<D>, t: nat)
    requires Inv(s, c) && t in s.threads && o.Moved? && LocalStep(s.g, s.threads[t], o.action, o)
    requires GoodStep(s.g, c, s.threads[t], o, t, Abs(s, c).phases)
    ensures var c' := Observe(c, s.g, s.threads[t], o);
      c'.t + 1 == |c'.chain| || exists u :: u in s.threads && Swinging(o.g, c', s.threads[t := o.local][u])
  {
    hide At; hide NewNodePtr; hide GetPtr; hide Accept; hide PutStep; hide TakeStep; hide SizeStep; hide Items; hide LocalOk;
    var l := s.threads[t];
    var c' := Observe(c, s.g, l, o);
    var after := s.threads[t := o.local];
    StepIsGood(s, c, o, t);
    if o.action.Enqueue? {
      assert Swinging(o.g, c', after[t]);
    } else if c.t + 1 < |c.chain| {
      var u :| u in s.threads && Swinging(s.g, c, s.threads[u]);
      if u != t {
        assert LinkTo(s.g.track, c', |c.chain| - 1) == LinkTo(s.g.track, c, |c.chain| - 1);
        assert Swinging(o.g, c', after[u]);
      }
    }
  }

  // --- Runs -------------------------------------------------------------------------------------

  ghost function OutcomeOf<D(!new)>(s: System<D>, e: Event<D>, s': System<D>): (o: Outcome<D>)
    requires Next(s, e, s')
    ensures LocalStep(s.g, s.threads[e.thread], e.action, o)
    ensures s' == System(o.g, s.threads[e.thread := o.local])
  {
    var o: Outcome<D> :| LocalStep(s.g, s.threads[e.thread], e.action, o)
      && s' == System(o.g, s.threads[e.thread := o.local]);
    o
  }

  // What the observer remembers after the first n events of a run.
  ghost function HistoryAt<D(!new)>(states: seq<System<D>>, events: seq<Event<D>>, n: nat): History
    requires Run(states, events) && n <= |events|
  {
    if n == 0 then History([GetPtr(states[0].g.track, states[0].g.head)], [0], 0, 0)
    else
      var s := states[n - 1];
      assert Next(s, events[n - 1], states[n]);
      Observe(HistoryAt(states, events, n - 1), s.g, s.threads[events[n - 1].thread],
              OutcomeOf(s, events[n - 1], states[n]))
  }

  // The empty queue with every thread at rest.
  function Start<D>(s: System<D>): Abstract<D> {
    Abstract([], map u | u in s.threads :: Idle)
  }

  lemma StartIsGood<D(!new)>(s: System<D>)
    requires Initial(s)
    ensures var c := History([GetPtr(s.g.track, s.g.head)], [0], 0, 0);
      Inv(s, c) && Abs(s, c) == Start(s)
  {
    var address: nat, dummy: D :| ValidPtr(s.g.track, address) && InitialAt(s, address, dummy);
    var c := History([address], [0], 0, 0);
    Unpack(s.g.track, address, 0);
    assert c.sizes[..1] == [0];
    assert Linked(s.g, c, 0);
    forall u | u in s.threads
      ensures LocalOk(s.g, c, s.threads[u])
    {
      assert LocalAt(s.g, c, s.threads[u], 0, 0);
    }
  }

  // MAIN RESULT. Every event of every run is an event of the atomic queue, in the same order.
  lemma {:induction false} Linearizable<D(!new)>(states: seq<System<D>>, events: seq<Event<D>>, n: nat)
    requires Run(states, events) && n <= |events|
    ensures Inv(states[n], HistoryAt(states, events, n))
    ensures AcceptAll(Start(states[0]), events[..n]) == Some(Abs(states[n], HistoryAt(states, events, n)))
  {
    hide LocalStep; hide Accept; hide Observe; hide Inv; hide Abs; hide Initial; hide Shape;
    if n == 0 {
      StartIsGood(states[0]);
    } else {
      Linearizable(states, events, n - 1);
      var s, e, s' := states[n - 1], events[n - 1], states[n];
      assert Next(s, e, s');
      StepRefines(s, HistoryAt(states, events, n - 1), e, s', OutcomeOf(s, e, s'));
      assert events[..n][..n - 1] == events[..n - 1];
    }
  }

  // The values taken so far are, in order, the first values put; and a Put counted once is linked once.
  lemma TakesFollowPuts<D(!new)>(states: seq<System<D>>, events: seq<Event<D>>, t: nat)
    requires Run(states, events) && t in states[0].threads
    ensures Dequeued(events) <= Enqueued(events)
    ensures Returns(events, t) <= Effects(events, t) <= Calls(events, t) <= Returns(events, t) + 1
  {
    hide AcceptAll; hide Enqueued; hide Dequeued; hide Calls; hide Effects; hide Returns; hide Inv; hide Abs; hide Values; hide HistoryAt;
    var n := |events|;
    Linearizable(states, events, n);
    assert events[..n] == events;
    assert Values(Start(states[0]).queue) == [];
    FirstInFirstOut(Start(states[0]), events);
    EachPutEnqueuesOnce(Start(states[0]), events, t);
    assert Enqueued(events) == Dequeued(events) + Values(AcceptAll(Start(states[0]), events).value.queue);
  }

  // No thread ever follows a dangling pointer or gets stuck between a call and its return.
  lemma EveryThreadCanStep<D(!new)>(s: System<D>, c: History, t: nat)
    requires Inv(s, c) && t in s.threads
    ensures exists action, s' :: Next(s, Event(t, action), s')
  {
    hide At; hide LinkTo; hide NewNodePtr; hide GetPtr; hide Accept;
    hide LocalAt; hide QueueOf; hide Evolves;
    var l, phases := s.threads[t], Abs(s, c).phases;
    var i, j :| LocalAt(s.g, c, l, i, j);
    var o: Outcome<D>;
    if l.Resting? {
      o := Moved(s.g, TakeReadHead, CallTake);
    } else if l.PutReturn? {
      o := Moved(s.g, Resting, ReturnPut(l.ok));
    } else if l.TakeReturn? {
      o := Moved(s.g, Resting, ReturnTake(l.result));
    } else if l.SizeReturn? {
      o := Moved(s.g, Resting, ReturnSize(l.size));
    } else if l.SizeStart? || l.SizeReadHead? || l.SizeReadTail? {
      o := SizeStep(s.g, l);
    } else if BeforeLink(l) || l.PutSwing? {
      o := PutStep(s.g, l);
      PutStepIsGood(s.g, c, l, i, j, t, phases);
    } else {
      o := TakeStep(s.g, l);
      TakeStepIsGood(s.g, c, l, i, j, t, phases);
    }
    assert LocalStep(s.g, l, o.action, o);
    assert Next(s, Event(t, o.action), System(o.g, s.threads[t := o.local]));
  }

  // When a Put returns, whether or not its own swing succeeded, the tail is at or past its node.
  lemma TailReachesReturnedNode<D>(s: System<D>, c: History, t: nat)
    requires Inv(s, c) && t in s.threads && s.threads[t].PutReturn?
    ensures exists k :: 0 < k <= c.t && c.Has(k) && c.chain[k] == GetPtr(s.g.track, s.threads[t].args.node)
  {
    var i, j :| LocalAt(s.g, c, s.threads[t], i, j);
    WordsName(s.g.track, c, j, j);
  }

  // What Put returns: true exactly when the tail still stood right before its node at the last step, so that its
  // own swing moved it; false when another thread had moved the tail there already. Either way it is there now.
  lemma PutAnswers<D>(s: System<D>, c: History, t: nat) returns (k: int)
    requires Inv(s, c) && t in s.threads && s.threads[t].PutSwing?
    ensures 0 < k && c.Has(k) && c.chain[k] == GetPtr(s.g.track, s.threads[t].args.node)
    ensures var o := PutStep(s.g, s.threads[t]);
      && o.Moved? && o.local == PutReturn(s.threads[t].args, c.t == k - 1)
      && (c.t == k - 1 ==> GetPtr(s.g.track, o.g.tail) == c.chain[k])
      && (c.t != k - 1 ==> k <= c.t && o.g == s.g)
  {
    hide LinkTo; hide NewNodePtr; hide Swapped; hide Linked; hide LocalOk; hide At; hide GetPtr;
    var i, j := PutSwingPlace(s, c, t);
    k := j + 1;
    WordsName(s.g.track, c, j, c.t);
    WordsName(s.g.track, c, k, k);
    SwapAdvances(s.g.track, c, j);
  }

  lemma PutSwingPlace<D>(s: System<D>, c: History, t: nat) returns (i: int, j: int)
    requires Inv(s, c) && t in s.threads && s.threads[t].PutSwing?
    ensures Names(s.g.track, c, j, c.t, s.threads[t].tail) && Follows(s.g.track, c, j, s.threads[t].args.node)
  {
    i, j :| LocalAt(s.g, c, s.threads[t], i, j);
  }

  // The packed test of head against tail holds exactly when both name the same node.
  lemma HeadEqualsTailIsSameNode<D>(s: System<D>, c: History)
    requires Inv(s, c)
    ensures s.g.head == s.g.tail <==> GetPtr(s.g.track, s.g.head) == GetPtr(s.g.track, s.g.tail)
    ensures s.g.head == s.g.tail <==> c.h == c.t
  {
    WordsName(s.g.track, c, c.h, c.t);
    WordsName(s.g.track, c, c.t, c.h);
  }

  // --- Size ---------------------------------------------------------------------------------------

  // The words of nodes i and j, subtracted: what follows node i, less what follows node j, modulo 2^32.
  lemma WordsSpan(c: History, i: int, j: int)
    requires c.Has(i) && c.Has(j)
    ensures (SizeBetween(At(true, c, i), At(true, c, j)) + Sum(c.sizes[j + 1..])) % W == Sum(c.sizes[i + 1..]) % W
  {
    hide NewNodePtr; hide GetSize; hide Sum;
    var a, b, all := Sum(c.sizes[..i + 1]), Sum(c.sizes[..j + 1]), Sum(c.sizes);
    Unpack(true, c.chain[i], a % W);
    Unpack(true, c.chain[j], b % W);
    SumAppend(c.sizes[..i + 1], c.sizes[i + 1..]);
    SumAppend(c.sizes[..j + 1], c.sizes[j + 1..]);
    assert c.sizes[..i + 1] + c.sizes[i + 1..] == c.sizes == c.sizes[..j + 1] + c.sizes[j + 1..];
    ModSpan(a, b, all);
  }

  lemma QueueSizes<D>(g: Shared<D>, c: History)
    requires Shape(g, c)
    ensures Sizes(QueueOf(g, c)) == c.sizes[c.h + 1..]
  {
  }

  predicate Congruent(a: nat, b: nat) {
    a % W == b % W
  }

  lemma SpanSplits(c: History, i: int, j: int)
    requires c.Has(i) && c.Has(j) && i <= c.h && c.Has(c.h)
    ensures Congruent(SizeBetween(At(true, c, i), At(true, c, j)) + Sum(c.sizes[j + 1..]),
                      Sum(c.sizes[i + 1..c.h + 1]) + Sum(c.sizes[c.h + 1..]))
  {
    WordsSpan(c, i, j);
    hide At; hide SizeBetween; hide Sum;
    assert c.sizes[i + 1..] == c.sizes[i + 1..c.h + 1] + c.sizes[c.h + 1..];
    SumAppend(c.sizes[i + 1..c.h + 1], c.sizes[c.h + 1..]);
  }

  // Under any interleaving, Size with the tail loaded first answers, modulo 2^32, the queued total at the moment
  // it loads head, less the items linked behind the tail it had loaded.
  lemma SizeAtHeadLoad<D>(s: System<D>, c: History, t: nat) returns (j: int)
    requires Inv(s, c) && t in s.threads && s.threads[t].SizeReadHead?
    ensures s.g.track && Names(true, c, j, c.t, s.threads[t].tail)
    ensures Congruent(SizeStep(s.g, s.threads[t]).local.size + Sum(c.sizes[j + 1..]), Sum(Sizes(QueueOf(s.g, c))))
  {
    hide At; hide SizeBetween; hide Linked; hide Congruent; hide QueueOf; hide Sizes;
    var i: int;
    i, j :| LocalAt(s.g, c, s.threads[t], i, j);
    SpanSplits(c, c.h, j);
    assert c.sizes[c.h + 1..c.h + 1] == [];
    QueueSizes(s.g, c);
  }

  // With head loaded first it answers, at the moment it loads the tail, the queued total and what was taken since,
  // less an item linked but not yet behind the tail.
  lemma SizeAtTailLoad<D>(s: System<D>, c: History, t: nat) returns (i: int)
    requires Inv(s, c) && t in s.threads && s.threads[t].SizeReadTail?
    ensures s.g.track && Names(true, c, i, c.h, s.threads[t].head)
    ensures Congruent(SizeStep(s.g, s.threads[t]).local.size + Sum(c.sizes[c.t + 1..]),
                      Sum(c.sizes[i + 1..c.h + 1]) + Sum(Sizes(QueueOf(s.g, c))))
  {
    hide At; hide SizeBetween; hide Linked; hide Congruent; hide QueueOf; hide Sizes;
    var j: int;
    i, j :| LocalAt(s.g, c, s.threads[t], i, j);
    SpanSplits(c, i, c.t);
    QueueSizes(s.g, c);
  }

  ghost predicate NobodySwings<D>(s: System<D>) {
    forall u :: u in s.threads ==> !s.threads[u].PutSwing?
  }

  // The chain of a later history extends that of an earlier one.
  predicate Leads(c: History, c': History, enqueued: bool, dequeued: bool) {
    && c.chain <= c'.chain && c.sizes <= c'.sizes
    && (enqueued || (c'.chain == c.chain && c'.sizes == c.sizes))
    && (dequeued || c'.h == c.h)
  }

  lemma LeadsOn(c: History, d: History, e: History, enqueued: bool, dequeued: bool, enqueued': bool, dequeued': bool)
    requires Leads(c, d, enqueued, dequeued) && Leads(d, e, enqueued', dequeued')
    ensures Leads(c, e, enqueued || enqueued', dequeued || dequeued')
  {
  }

  // What one step of a run may change; l is where its thread stands afterwards.
  lemma HistoryStep<D(!new)>(states: seq<System<D>>, events: seq<Event<D>>, n: nat) returns (l: Local<D>)
    requires Run(states, events) && n < |events|
    ensures Leads(HistoryAt(states, events, n), HistoryAt(states, events, n + 1),
                  events[n].action.Enqueue?, events[n].action.Dequeue?)
    ensures events[n].thread in states[n].threads
    ensures states[n + 1].threads == states[n].threads[events[n].thread := l]
  {
    var s, e, s' := states[n], events[n], states[n + 1];
    assert Next(s, e, s');
    var o := OutcomeOf(s, e, s');
    assert o.Moved? && o.action == e.action;
    hide LocalStep; hide Next;
    l := o.local;
  }

  predicate Enqueues<D>(events: seq<Event<D>>, a: nat, b: nat)
    requires b <= |events|
  {
    exists k :: a <= k < b && events[k].action.Enqueue?
  }

  predicate Dequeues<D>(events: seq<Event<D>>, a: nat, b: nat)
    requires b <= |events|
  {
    exists k :: a <= k < b && events[k].action.Dequeue?
  }

  lemma EffectsNext<D>(events: seq<Event<D>>, a: nat, b: nat)
    requires a < b <= |events|
    ensures Enqueues(events, a, b) <==> Enqueues(events, a, b - 1) || events[b - 1].action.Enqueue?
    ensures Dequeues(events, a, b) <==> Dequeues(events, a, b - 1) || events[b - 1].action.Dequeue?
  {
  }

  // Thread t stays where it is while others move.
  lemma {:induction false} Waits<D(!new)>(states: seq<System<D>>, events: seq<Event<D>>, a: nat, b: nat, t: nat)
    requires Run(states, events) && a <= b <= |events|
    requires t in states[a].threads && forall k :: a <= k < b ==> events[k].thread != t
    ensures t in states[b].threads && states[b].threads[t] == states[a].threads[t]
    decreases b - a
  {
    if a < b {
      Waits(states, events, a, b - 1, t);
      var l := HistoryStep(states, events, b - 1);
      assert events[b - 1].thread != t;
    }
  }

  // What happens to the chain from step a to step b.
  lemma {:induction false} ChainGrows<D(!new)>(states: seq<System<D>>, events: seq<Event<D>>, a: nat, b: nat)
    requires Run(states, events) && a <= b <= |events|
    ensures Leads(HistoryAt(states, events, a), HistoryAt(states, events, b), Enqueues(events, a, b), Dequeues(events, a, b))
    decreases b - a
  {
    hide HistoryAt; hide Next; hide Initial; hide Enqueues; hide Dequeues; hide Leads;
    if a < b {
      ChainGrows(states, events, a, b - 1);
      var l := HistoryStep(states, events, b - 1);
      EffectsNext(events, a, b);
      LeadsOn(HistoryAt(states, events, a), HistoryAt(states, events, b - 1), HistoryAt(states, events, b),
              Enqueues(events, a, b - 1), Dequeues(events, a, b - 1),
              events[b - 1].action.Enqueue?, events[b - 1].action.Dequeue?);
    } else {
      NothingLeads(HistoryAt(states, events, a), events, a);
    }
  }

  lemma NothingLeads<D>(c: History, events: seq<Event<D>>, a: nat)
    requires a <= |events|
    ensures Leads(c, c, Enqueues(events, a, a), Dequeues(events, a, a))
  {
  }

  // A load of Size only moves its own thread on.
  lemma LoadStep<D(!new)>(states: seq<System<D>>, events: seq<Event<D>>, n: nat)
    requires Run(states, events) && n < |events| && events[n].thread in states[n].threads
    requires var l := states[n].threads[events[n].thread]; l.SizeStart? || l.SizeReadHead? || l.SizeReadTail?
    ensures states[n + 1] ==
      System(states[n].g, states[n].threads[events[n].thread := SizeStep(states[n].g, states[n].threads[events[n].thread]).local])
    ensures HistoryAt(states, events, n + 1) == HistoryAt(states, events, n)
    ensures !events[n].action.Enqueue? && !events[n].action.Dequeue?
  {
    assert Next(states[n], events[n], states[n + 1]);
    var o := OutcomeOf(states[n], events[n], states[n + 1]);
    assert o == SizeStep(states[n].g, states[n].threads[events[n].thread]);
  }

  // Thread t loads one counter at step a and the other at step b, and does nothing in between.
  ghost predicate LoadsAt<D(!new)>(states: seq<System<D>>, events: seq<Event<D>>, a: nat, b: nat, t: nat, tailFirst: bool)
    requires Run(states, events)
  {
    && a < b < |events| && events[a].thread == events[b].thread == t
    && (forall k :: a < k < b ==> events[k].thread != t)
    && t in states[a].threads && states[a].threads[t] == SizeStart(tailFirst)
  }

  lemma BothLoads<D(!new)>(states: seq<System<D>>, events: seq<Event<D>>, a: nat, b: nat, t: nat, tailFirst: bool)
    requires Run(states, events) && LoadsAt(states, events, a, b, t, tailFirst)
    ensures t in states[b].threads && t in states[b + 1].threads
    ensures states[b].threads[t] == SizeStep(states[a].g, SizeStart(tailFirst)).local
    ensures states[b + 1].threads[t] == SizeStep(states[b].g, states[b].threads[t]).local
    ensures Leads(HistoryAt(states, events, a), HistoryAt(states, events, b), Enqueues(events, a, b), Dequeues(events, a, b))
  {
    hide HistoryAt; hide Next; hide Initial; hide Leads;
    LoadStep(states, events, a);
    Waits(states, events, a + 1, b, t);
    ChainGrows(states, events, a, b);
    LoadStep(states, events, b);
  }

  // MAIN RESULT on Size. With no Put between its link and its swing when the tail is loaded, and no enqueue before
  // head is, Size answers the queued total modulo 2^32 at the moment it loads head, whatever is taken meanwhile.
  lemma SizeIsQueuedTotal<D(!new)>(states: seq<System<D>>, events: seq<Event<D>>, a: nat, b: nat, t: nat)
    requires Run(states, events) && LoadsAt(states, events, a, b, t, true)
    requires NobodySwings(states[a]) && !Enqueues(events, a, b)
    ensures Inv(states[b], HistoryAt(states, events, b)) && t in states[b + 1].threads
    ensures states[b + 1].threads[t] == SizeReturn(Sum(Sizes(Abs(states[b], HistoryAt(states, events, b)).queue)) % W)
  {
    hide HistoryAt; hide At; hide SizeBetween; hide Sum; hide Items; hide Linked; hide LocalOk; hide Next; hide Accept;
    var c, c0, s := HistoryAt(states, events, b), HistoryAt(states, events, a), states[b];
    BothLoads(states, events, a, b, t, true);
    Linearizable(states, events, a);
    Linearizable(states, events, b);
    SizingTracks(states[a], c0, t);
    TailIsLast(states[a], c0);
    var j := SizeAtHeadLoad(s, c, t);
    assert At(true, c0, c0.t) == At(true, c, |c.chain| - 1) by { WordsAgree(c0, c, c0.t); }
    WordsName(true, c, j, |c.chain| - 1);
    EmptyTail(c);
  }

  // With head loaded first it is the queued total at the moment it loads the tail, if no Put is between its link
  // and its swing then and nothing was taken in between.
  lemma SizeIsQueuedTotalHeadFirst<D(!new)>(states: seq<System<D>>, events: seq<Event<D>>, a: nat, b: nat, t: nat)
    requires Run(states, events) && LoadsAt(states, events, a, b, t, false)
    requires NobodySwings(states[b]) && !Dequeues(events, a, b)
    ensures Inv(states[b], HistoryAt(states, events, b)) && t in states[b + 1].threads
    ensures states[b + 1].threads[t] == SizeReturn(Sum(Sizes(Abs(states[b], HistoryAt(states, events, b)).queue)) % W)
  {
    hide HistoryAt; hide At; hide SizeBetween; hide Sum; hide Items; hide Linked; hide LocalOk; hide Next; hide Accept;
    var c, c0, s := HistoryAt(states, events, b), HistoryAt(states, events, a), states[b];
    BothLoads(states, events, a, b, t, false);
    Linearizable(states, events, a);
    Linearizable(states, events, b);
    SizingTracks(states[a], c0, t);
    TailIsLast(s, c);
    var i := SizeAtTailLoad(s, c, t);
    assert At(true, c0, c0.h) == At(true, c, c.h) by { WordsAgree(c0, c, c0.h); }
    WordsName(true, c, i, c.h);
    EmptyTail(c);
  }

  lemma SizingTracks<D>(s: System<D>, c: History, t: nat)
    requires Inv(s, c) && t in s.threads && s.threads[t].SizeStart?
    ensures s.g.track
  {
  }

  lemma TailIsLast<D>(s: System<D>, c: History)
    requires Inv(s, c) && NobodySwings(s)
    ensures c.t + 1 == |c.chain|
  {
  }

  lemma WordsAgree(c: History, c': History, j: int)
    requires c.Has(j) && c.chain <= c'.chain && c.sizes <= c'.sizes && |c'.chain| == |c'.sizes|
    ensures At(true, c, j) == At(true, c', j)
  {
    assert c.sizes[..j + 1] == c'.sizes[..j + 1];
  }

  lemma EmptyTail(c: History)
    ensures c.sizes[|c.sizes|..] == [] && Sum([]) == 0
    ensures 0 <= c.h < |c.sizes| ==> c.sizes[c.h + 1..c.h + 1] == []
  {
  }

  // Size() computed from one state.
  function SizeOf<D>(g: Shared<D>): uint32 {
    SizeBetween(g.head, g.tail)
  }

  lemma SizeInOneState<D>(g: Shared<D>, c: History)
    requires Shape(g, c) && g.track && c.t + 1 == |c.chain|
    ensures SizeOf(g) == Sum(Sizes(QueueOf(g, c))) % W
  {
    hide At; hide SizeBetween; hide Items; hide Linked;
    WordsSpan(c, c.h, c.t);
    QueueSizes(g, c);
  }
}
