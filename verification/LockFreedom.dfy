/**
 Lock-freedom: a thread only starts a round of Put or Take over again after some compare-and-swap has
 succeeded, and there are no more of those than the Puts called allow. So a run of any threads under
 any interleaving is no longer than the calls made in it, and never spins without finishing anything.
 */
module LockFreedom {
  import opened Common
  import opened PackedWords
  import opened QueueSpec
  import opened LockFreeMachine
  import opened LockFreeProof

  // Links, head swings and tail swings so far, and the first node.
  function Swaps(c: History): nat {
    |c.chain| + c.h + c.t
  }

  predicate StartsRound<D>(l: Local<D>) {
    l.PutReadTail? || l.TakeReadHead?
  }

  // A step that gives up a round and starts it over.
  predicate StartsOver<D>(l: Local<D>, l': Local<D>) {
    !l.Resting? && StartsRound(l')
  }

  // No more than m swaps had succeeded when the round of l began, as far as its reads of nodes i and j tell.
  predicate Since<D>(c: History, l: Local<D>, i: int, j: int, m: nat) {
    match l
    case PutReadNext(_, _) => m <= |c.chain| + c.h + j
    case PutRecheck(_, _, next) => m <= |c.chain| + c.h + j && (next == 0 ==> m <= j + 1 + c.h + j)
    case PutLink(_, _) => m <= j + 1 + c.h + j
    case PutHelp(_, _, _) => m <= |c.chain| + c.h + j
    case TakeReadTail(_) => m <= |c.chain| + i + c.t
    case TakeReadNext(_, _) => m <= |c.chain| + i + c.t && m <= |c.chain| + c.h + j
    case TakeRecheck(_, _, _) => m <= |c.chain| + i + c.t && m <= |c.chain| + c.h + j
    case TakeHelp(_, _) => m <= |c.chain| + c.h + j
    case TakeReadValue(_, _) => m <= |c.chain| + i + c.t
    case TakeSwing(_, _, _) => m <= |c.chain| + i + c.t
    case _ => true
  }

  ghost predicate RoundSince<D>(g: Shared<D>, c: History, l: Local<D>, m: nat) {
    m <= Swaps(c) && exists i, j :: LocalAt(g, c, l, i, j) && Since(c, l, i, j, m)
  }

  // One step of Put: it either starts over after a swap, or goes on with the same round.
  lemma PutRound<D>(g: Shared<D>, c: History, l: Local<D>, i: int, j: int, m: nat)
    requires Shape(g, c) && LocalAt(g, c, l, i, j) && Since(c, l, i, j, m) && m <= Swaps(c)
    requires BeforeLink(l) || l.PutSwing?
    requires var o := PutStep(g, l); o.Moved? && LocalOk(o.g, Observe(c, g, l, o), o.local)
    ensures var o := PutStep(g, l);
      if StartsOver(l, o.local) then Swaps(Observe(c, g, l, o)) > m else RoundSince(o.g, Observe(c, g, l, o), o.local, m)
  {
    hide At; hide LinkTo; hide NewNodePtr; hide GetPtr; hide Swapped; hide Items;
    var o := PutStep(g, l);
    var c' := Observe(c, g, l, o);
    match l
    case PutReadTail(_) => assert LocalAt(g, c, o.local, i, c.t);
    case PutReadNext(_, _) =>
      WordsName(g.track, c, j, j);
      assert Linked(g, c, j);
      if j + 1 < |c.chain| { WordsName(g.track, c, j + 1, j + 1); }
      assert LocalAt(g, c, o.local, i, j);
    case PutRecheck(_, _, _) =>
      WordsName(g.track, c, j, c.t);
      if !StartsOver(l, o.local) { assert LocalAt(g, c, o.local, i, j); }
    case PutLink(_, _) =>
      WordsName(g.track, c, j, j);
      assert Linked(g, c, j);
    case PutHelp(_, tail, next) => TailMoves(g, c, tail, next, j, o.g, c', 0);
    case PutSwing(_, _) =>
  }

  lemma TakeReadNextRound<D>(g: Shared<D>, c: History, l: Local<D>, i: int, j: int)
    requires Shape(g, c) && LocalAt(g, c, l, i, j) && l.TakeReadNext?
    ensures TakeStep(g, l).Moved? && TakeStep(g, l).g == g && LocalAt(g, c, TakeStep(g, l).local, i, j)
  {
    hide At; hide LinkTo; hide NewNodePtr; hide GetPtr; hide Swapped; hide Items;
    WordsName(g.track, c, i, i);
    assert Linked(g, c, i);
    if i + 1 < |c.chain| { WordsName(g.track, c, i + 1, i + 1); }
  }

  lemma TakeRecheckRound<D>(g: Shared<D>, c: History, l: Local<D>, i: int, j: int)
    requires Shape(g, c) && LocalAt(g, c, l, i, j) && l.TakeRecheck?
    ensures TakeStep(g, l).Moved? && TakeStep(g, l).g == g
    ensures if StartsOver(l, TakeStep(g, l).local) then i < c.h else LocalAt(g, c, TakeStep(g, l).local, i, j)
  {
    hide At; hide LinkTo; hide NewNodePtr; hide GetPtr; hide Swapped; hide Items;
    WordsName(g.track, c, i, c.h);
    WordsName(g.track, c, i, j);
  }

  // One step of Take, in the same way.
  lemma TakeRound<D>(g: Shared<D>, c: History, l: Local<D>, i: int, j: int, m: nat)
    requires Shape(g, c) && LocalAt(g, c, l, i, j) && Since(c, l, i, j, m) && m <= Swaps(c)
    requires l.TakeReadHead? || l.TakeReadTail? || l.TakeReadNext? || l.TakeRecheck? || l.TakeHelp? || l.TakeReadValue? || l.TakeSwing?
    requires var o := TakeStep(g, l); o.Moved? && LocalOk(o.g, Observe(c, g, l, o), o.local)
    ensures var o := TakeStep(g, l);
      if StartsOver(l, o.local) then Swaps(Observe(c, g, l, o)) > m else RoundSince(o.g, Observe(c, g, l, o), o.local, m)
  {
    hide At; hide LinkTo; hide NewNodePtr; hide GetPtr; hide Swapped; hide Items;
    var o := TakeStep(g, l);
    var c' := Observe(c, g, l, o);
    match l
    case TakeReadHead => assert LocalAt(g, c, o.local, c.h, j);
    case TakeReadTail(_) => assert LocalAt(g, c, o.local, i, c.t);
    case TakeReadNext(_, _) => TakeReadNextRound(g, c, l, i, j);
    case TakeRecheck(_, _, _) => TakeRecheckRound(g, c, l, i, j);
    case TakeHelp(tail, next) => TailMoves(g, c, tail, next, j, o.g, c', 0);
    case TakeReadValue(_, _) =>
      WordsName(g.track, c, i + 1, i + 1);
      assert LocalAt(g, c, o.local, i, j);
    case TakeSwing(_, _, _) => WordsName(g.track, c, i, c.h);
  }

  // The same of any step: what lies outside Put and Take has no round.
  lemma AnyRound<D>(s: System<D>, c: History, o: Outcome<D>, t: nat, m: nat)
    requires Inv(s, c) && t in s.threads && o.Moved? && LocalStep(s.g, s.threads[t], o.action, o)
    requires RoundSince(s.g, c, s.threads[t], m)
    requires LocalOk(o.g, Observe(c, s.g, s.threads[t], o), o.local)
    ensures var l, c' := s.threads[t], Observe(c, s.g, s.threads[t], o);
      && Swaps(c') >= Swaps(c)
      && if StartsOver(l, o.local) then Swaps(c') > m else RoundSince(o.g, c', o.local, m)
  {
    hide At; hide LinkTo; hide NewNodePtr; hide GetPtr; hide Shape; hide LocalAt; hide PutStep; hide TakeStep;
    var l := s.threads[t];
    var i, j :| LocalAt(s.g, c, l, i, j) && Since(c, l, i, j, m);
    if BeforeLink(l) || l.PutSwing? {
      PutRound(s.g, c, l, i, j, m);
    } else if l.TakeReadHead? || l.TakeReadTail? || l.TakeReadNext? || l.TakeRecheck? || l.TakeHelp? || l.TakeReadValue? || l.TakeSwing? {
      TakeRound(s.g, c, l, i, j, m);
    } else {
      NoRound(s.g, l, o);
    }
  }

  lemma NoRound<D>(g: Shared<D>, l: Local<D>, o: Outcome<D>)
    requires l.Resting? || l.PutReturn? || l.TakeReturn? || l.SizeStart? || l.SizeReadHead? || l.SizeReadTail? || l.SizeReturn?
    requires o.Moved? && LocalStep(g, l, o.action, o)
    ensures !StartsOver(l, o.local)
    ensures forall c: History, i, j, m :: Since(c, o.local, i, j, m)
  {
  }

  // While others move, a thread's round stays what it was.
  lemma RoundStays<D>(g: Shared<D>, c: History, g': Shared<D>, c': History, p0: nat, l: Local<D>, m: nat)
    requires Evolves(g, c, g', c', p0) && RoundSince(g, c, l, m)
    requires Owned(g.track, l) != p0 || Owned(g.track, l) == 0
    ensures RoundSince(g', c', l, m)
  {
    hide LocalAt; hide Owned;
    var i, j :| LocalAt(g, c, l, i, j) && Since(c, l, i, j, m);
    LocalAtStays(g, c, g', c', p0, l, i, j);
    assert Since(c', l, i, j, m);
  }

  // --- Counting --------------------------------------------------------------------------------------------

  datatype Kind = AnyStep | AnyCall | PutCall | Link

  predicate Is<D>(action: Action<D>, kind: Kind) {
    match kind
    case AnyStep => true
    case AnyCall => action.CallPut? || action.CallTake? || action.CallSize?
    case PutCall => action.CallPut?
    case Link => action.Enqueue?
  }

  // How many of the events are of that kind and by one of those threads.
  function Count<D>(events: seq<Event<D>>, threads: set<nat>, kind: Kind): nat {
    if events == [] then 0
    else
      var e := events[|events| - 1];
      Count(events[..|events| - 1], threads, kind) + if e.thread in threads && Is(e.action, kind) then 1 else 0
  }

  lemma {:induction false} CountSplits<D>(events: seq<Event<D>>, threads: set<nat>, t: nat, kind: Kind)
    requires t in threads
    ensures Count(events, threads, kind) == Count(events, {t}, kind) + Count(events, threads - {t}, kind)
  {
    if events != [] { CountSplits(events[..|events| - 1], threads, t, kind); }
  }

  lemma {:induction false} CountNone<D>(events: seq<Event<D>>, kind: Kind)
    ensures Count(events, {}, kind) == 0
  {
    if events != [] { CountNone(events[..|events| - 1], kind); }
  }

  // How often thread t has started a round over in the first n steps.
  ghost function Restarts<D(!new)>(states: seq<System<D>>, events: seq<Event<D>>, n: nat, t: nat): nat
    requires Run(states, events) && n <= |events|
  {
    if n == 0 then 0
    else Restarts(states, events, n - 1, t) + if RestartsAt(states, events, n - 1, t) then 1 else 0
  }

  ghost predicate RestartsAt<D(!new)>(states: seq<System<D>>, events: seq<Event<D>>, k: nat, t: nat)
    requires Run(states, events) && k < |events|
  {
    events[k].thread == t && t in states[k].threads && t in states[k + 1].threads
      && StartsOver(states[k].threads[t], states[k + 1].threads[t])
  }

  // Steps left in a round, at most.
  function Left<D>(l: Local<D>): nat {
    match l
    case Resting => 0
    case PutReadTail(_) => 6
    case PutReadNext(_, _) => 5
    case PutRecheck(_, _, _) => 4
    case PutLink(_, _) => 3
    case PutHelp(_, _, _) => 3
    case PutSwing(_, _) => 2
    case PutReturn(_, _) => 1
    case TakeReadHead => 7
    case TakeReadTail(_) => 6
    case TakeReadNext(_, _) => 5
    case TakeRecheck(_, _, _) => 4
    case TakeHelp(_, _) => 3
    case TakeReadValue(_, _) => 3
    case TakeSwing(_, _, _) => 2
    case TakeReturn(_) => 1
    case SizeStart(_) => 3
    case SizeReadHead(_) => 2
    case SizeReadTail(_) => 2
    case SizeReturn(_) => 1
  }

  lemma LeftFalls<D>(g: Shared<D>, l: Local<D>, o: Outcome<D>)
    requires o.Moved? && LocalStep(g, l, o.action, o)
    ensures if l.Resting? then Is(o.action, AnyCall) && Left(o.local) <= 7
            else if StartsOver(l, o.local) then Left(l) > 0 && Left(o.local) <= 7
            else Left(o.local) < Left(l)
  {
  }

  // --- Whole runs -------------------------------------------------------------------------------------------

  lemma {:induction false} ThreadsStay<D(!new)>(states: seq<System<D>>, events: seq<Event<D>>, n: nat)
    requires Run(states, events) && n <= |events|
    ensures states[n].threads.Keys == states[0].threads.Keys
    ensures forall k :: 0 <= k < n ==> events[k].thread in states[0].threads
  {
    if n > 0 {
      ThreadsStay(states, events, n - 1);
      var l := HistoryStep(states, events, n - 1);
    }
  }

  // Step n of a run, taken apart.
  lemma StepAt<D(!new)>(states: seq<System<D>>, events: seq<Event<D>>, n: nat) returns (o: Outcome<D>)
    requires Run(states, events) && n < |events|
    ensures |states| == |events| + 1 && events[n].thread in states[n].threads
    ensures var s, c, u := states[n], HistoryAt(states, events, n), events[n].thread;
      && Inv(s, c) && o.Moved? && o.action == events[n].action && LocalStep(s.g, s.threads[u], o.action, o)
      && states[n + 1] == System(o.g, s.threads[u := o.local])
      && HistoryAt(states, events, n + 1) == Observe(c, s.g, s.threads[u], o)
  {
    Linearizable(states, events, n);
    hide Inv; hide Observe; hide Initial;
    assert Next(states[n], events[n], states[n + 1]);
    o := OutcomeOf(states[n], events[n], states[n + 1]);
  }

  // Every round started over has its own swap: one that succeeded after the round before it began.
  lemma {:induction false} RestartsNeedSwaps<D(!new)>(states: seq<System<D>>, events: seq<Event<D>>, n: nat, t: nat) returns (m: nat)
    requires Run(states, events) && n <= |events| && t in states[0].threads
    ensures t in states[n].threads && Restarts(states, events, n, t) < m
    ensures RoundSince(states[n].g, HistoryAt(states, events, n), states[n].threads[t], m)
  {
    hide RoundSince; hide HistoryAt; hide Next; hide Initial; hide RestartsAt;
    if n == 0 {
      m := 1;
      AtRest(states, events, t);
    } else {
      m := RestartsNeedSwaps(states, events, n - 1, t);
      m := RestartsNext(states, events, n - 1, t, m);
    }
  }

  lemma RestartsNext<D(!new)>(states: seq<System<D>>, events: seq<Event<D>>, n: nat, t: nat, m: nat) returns (m': nat)
    requires Run(states, events) && n < |events| && t in states[n].threads && Restarts(states, events, n, t) < m
    requires RoundSince(states[n].g, HistoryAt(states, events, n), states[n].threads[t], m)
    ensures t in states[n + 1].threads && Restarts(states, events, n + 1, t) < m'
    ensures RoundSince(states[n + 1].g, HistoryAt(states, events, n + 1), states[n + 1].threads[t], m')
  {
    hide RoundSince; hide LocalStep; hide Inv; hide Observe; hide StartsOver; hide HistoryAt; hide Initial; hide Next;
    var o := StepAt(states, events, n);
    m' := RoundNext(states[n], HistoryAt(states, events, n), o, events[n].thread, t, m);
  }

  lemma AtRest<D(!new)>(states: seq<System<D>>, events: seq<Event<D>>, t: nat)
    requires Run(states, events) && t in states[0].threads
    ensures RoundSince(states[0].g, HistoryAt(states, events, 0), states[0].threads[t], 1)
  {
    assert states[0].threads[t] == Resting;
    assert LocalAt(states[0].g, HistoryAt(states, events, 0), states[0].threads[t], 0, 0);
  }

  // One step of thread u, seen by thread t.
  lemma RoundNext<D>(s: System<D>, c: History, o: Outcome<D>, u: nat, t: nat, m: nat) returns (m': nat)
    requires Inv(s, c) && u in s.threads && t in s.threads && o.Moved? && LocalStep(s.g, s.threads[u], o.action, o)
    requires RoundSince(s.g, c, s.threads[t], m)
    ensures RoundSince(o.g, Observe(c, s.g, s.threads[u], o), s.threads[u := o.local][t], m')
    ensures m' >= m && (u == t && StartsOver(s.threads[u], o.local) ==> m' > m)
  {
    hide LocalStep; hide LocalAt; hide Shape; hide Owned;
    var c' := Observe(c, s.g, s.threads[u], o);
    StepIsGood(s, c, o, u);
    m' := m;
    if u != t {
      RoundStays(s.g, c, o.g, c', Owned(s.g.track, s.threads[u]), s.threads[t], m);
    } else {
      AnyRound(s, c, o, t, m);
      if StartsOver(s.threads[t], o.local) {
        m' := Swaps(c');
        assert forall i, j :: Since(c', o.local, i, j, m');
      }
    }
  }

  lemma {:induction false} LinksAreEnqueues<D(!new)>(states: seq<System<D>>, events: seq<Event<D>>, n: nat)
    requires Run(states, events) && n <= |events|
    ensures |HistoryAt(states, events, n).chain| == 1 + Count(events[..n], states[0].threads.Keys, Link)
  {
    if n > 0 {
      LinksAreEnqueues(states, events, n - 1);
      ThreadsStay(states, events, n);
      ChainNext(states, events, n - 1);
      hide HistoryAt; hide Next; hide Initial;
      assert events[..n][..n - 1] == events[..n - 1];
    }
  }

  lemma ChainNext<D(!new)>(states: seq<System<D>>, events: seq<Event<D>>, n: nat)
    requires Run(states, events) && n < |events|
    ensures |HistoryAt(states, events, n + 1).chain|
      == |HistoryAt(states, events, n).chain| + if events[n].action.Enqueue? then 1 else 0
  {
    var o := StepAt(states, events, n);
    EnqueueLinks(HistoryAt(states, events, n), states[n].g, states[n].threads[events[n].thread], o);
    hide Inv; hide LocalStep; hide Observe; hide HistoryAt;
  }

  lemma EnqueueLinks<D>(c: History, g: Shared<D>, l: Local<D>, o: Outcome<D>)
    requires o.Moved? && LocalStep(g, l, o.action, o)
    ensures |Observe(c, g, l, o).chain| == |c.chain| + if o.action.Enqueue? then 1 else 0
  {
  }

  // One thread starts a round over at most three times for each node that anyone links.
  lemma RestartsBounded<D(!new)>(states: seq<System<D>>, events: seq<Event<D>>, t: nat)
    requires Run(states, events) && t in states[0].threads
    ensures Restarts(states, events, |events|, t) <= 3 * Count(events, states[0].threads.Keys, Link)
  {
    var m := RestartsNeedSwaps(states, events, |events|, t);
    LinksAreEnqueues(states, events, |events|);
    Linearizable(states, events, |events|);
    assert events[..|events|] == events;
  }

  // A thread's steps are paid for by its calls and by the rounds it had to start over.
  lemma {:induction false} StepsArePaidFor<D(!new)>(states: seq<System<D>>, events: seq<Event<D>>, n: nat, t: nat)
    requires Run(states, events) && n <= |events| && t in states[0].threads
    ensures t in states[n].threads
    ensures Count(events[..n], {t}, AnyStep) + Left(states[n].threads[t])
      <= 8 * Count(events[..n], {t}, AnyCall) + 7 * Restarts(states, events, n, t)
  {
    ThreadsStay(states, events, n);
    if n > 0 {
      StepsArePaidFor(states, events, n - 1, t);
      assert events[..n][..n - 1] == events[..n - 1];
      var o := StepAt(states, events, n - 1);
      LeftFalls(states[n - 1].g, states[n - 1].threads[events[n - 1].thread], o);
    }
  }

  // A thread links no more nodes than it has called Put.
  lemma {:induction false} CountsOfOne<D>(events: seq<Event<D>>, t: nat)
    ensures Count(events, {t}, Link) == Effects(events, t) && Count(events, {t}, PutCall) == Calls(events, t)
  {
    if events != [] { CountsOfOne(events[..|events| - 1], t); }
  }

  lemma {:induction false} LinksAreCalled<D(!new)>(states: seq<System<D>>, events: seq<Event<D>>, threads: set<nat>)
    requires Run(states, events) && threads <= states[0].threads.Keys
    ensures Count(events, threads, Link) <= Count(events, threads, PutCall)
    decreases threads
  {
    if threads == {} {
      CountNone(events, Link);
    } else {
      var t :| t in threads;
      LinksAreCalled(states, events, threads - {t});
      CountSplits(events, threads, t, Link);
      CountSplits(events, threads, t, PutCall);
      CountsOfOne(events, t);
      TakesFollowPuts(states, events, t);
    }
  }

  lemma {:induction false} StepsOfSome<D(!new)>(states: seq<System<D>>, events: seq<Event<D>>, threads: set<nat>)
    requires Run(states, events) && threads <= states[0].threads.Keys
    ensures Count(events, threads, AnyStep)
      <= 8 * Count(events, threads, AnyCall) + |threads| * (21 * Count(events, states[0].threads.Keys, PutCall))
    decreases threads
  {
    if threads == {} {
      CountNone(events, AnyStep);
    } else {
      var t :| t in threads;
      StepsOfSome(states, events, threads - {t});
      CountSplits(events, threads, t, AnyStep);
      CountSplits(events, threads, t, AnyCall);
      StepsOfOne(states, events, t);
      var puts := 21 * Count(events, states[0].threads.Keys, PutCall);
      assert |threads| == |threads - {t}| + 1;
      assert (|threads - {t}| + 1) * puts == |threads - {t}| * puts + puts;
    }
  }

  // However the others are scheduled, a thread takes at most 8 steps for each of its calls and 21 for each Put
  // that anyone calls.
  lemma StepsOfOne<D(!new)>(states: seq<System<D>>, events: seq<Event<D>>, t: nat)
    requires Run(states, events) && t in states[0].threads
    ensures Count(events, {t}, AnyStep)
      <= 8 * Count(events, {t}, AnyCall) + 21 * Count(events, states[0].threads.Keys, PutCall)
  {
    StepsArePaidFor(states, events, |events|, t);
    RestartsBounded(states, events, t);
    LinksAreCalled(states, events, states[0].threads.Keys);
    assert events[..|events|] == events;
  }

  /**
   MAIN RESULT. A run has no more steps than its calls pay for, whatever the interleaving: as long as
   threads take steps, calls must be made, so operations keep finishing and none spin for ever together.
   */
  lemma LockFree<D(!new)>(states: seq<System<D>>, events: seq<Event<D>>)
    requires Run(states, events)
    ensures var threads := states[0].threads.Keys;
      |events| <= 8 * Count(events, threads, AnyCall) + |threads| * (21 * Count(events, threads, PutCall))
  {
    ThreadsStay(states, events, |events|);
    StepsOfSome(states, events, states[0].threads.Keys);
    CountAll(events, states[0].threads.Keys);
  }

  lemma {:induction false} CountAll<D>(events: seq<Event<D>>, threads: set<nat>)
    requires forall k :: 0 <= k < |events| ==> events[k].thread in threads
    ensures Count(events, threads, AnyStep) == |events|
  {
    if events != [] { CountAll(events[..|events| - 1], threads); }
  }
}
