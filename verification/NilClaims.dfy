/** Refusals and lost compare-and-swaps of the queue with NIL slots, through its likeness with the queue
    with slot states. */
module NilClaims {
  import opened AtomicQueue
  import opened AtomicQueueProofs
  import opened AtomicQueueTheorems
  import opened AtomicQueueClaims
  import opened NilQueue

  /** Loading, testing and claiming, operation by operation, in every reachable state. */
  lemma NilTicketlessStep<T(!new)>(cfg: Config, run: seq<NilState<T>>, k: nat, i: nat, a: Action<T>, elem: T)
    requires NilTrace(cfg, run) && k < |run| && i < |run[k].threads| && Free(run[k].threads[i])
    ensures var n, n' := run[k], NilStep(cfg, run[k], i, a);
            var t, t' := n.threads[i], n'.threads[i];
            && (t.Idle? && a.BeginPush? ==> t' == PushRead(a.elem, n.head))
            && (t.Idle? && a.BeginPop? ==> t' == PopRead(n.tail))
            && (t.PushRead? ==> t' == if t.head == n.tail + cfg.size then Idle else PushTested(t.elem, t.head))
            && (t.PopRead? ==> t' == if t.tail == n.head then Idle else PopTested(t.tail))
            && (t.PushTested? ==> t' == if t.head == n.head then PushWait(t.elem, n.head) else PushRead(t.elem, n.head))
            && (t.PopTested? ==> t' == if t.tail == n.tail then PopWait(n.tail) else PopRead(n.tail))
            && n'.slots == n.slots && n'.threads == n.threads[i := t']
    ensures var n, t, n' := run[k], run[k].threads[i], NilStep(cfg, run[k], i, a);
            && n'.head == n.head + (if t.PushTested? && t.head == n.head then 1 else 0)
            && n'.tail == n.tail + (if t.PopTested? && t.tail == n.tail then 1 else 0)
  {
    var s := TraceSimulated(cfg, run, k, elem);
    assert NilTimely(run[k]);
    CountersAlike(cfg, run[k], s, i, a);
    TicketlessStep(cfg, s, i, a);
  }

  /** A call gives up only where the queue is full, or empty. */
  lemma NilRefusalsAreExact<T(!new)>(cfg: Config, run: seq<NilState<T>>, k: nat, i: nat, elem: T)
    requires NilTrace(cfg, run) && k < |run| && i < |run[k].threads|
    requires RunNil(cfg, run[k], i).threads[i].Idle?
    ensures Pushing(run[k].threads[i]) ==> run[k].head == run[k].tail + cfg.size
    ensures Popping(run[k].threads[i]) ==> run[k].head == run[k].tail
  {
    if Pushing(run[k].threads[i]) || Popping(run[k].threads[i]) {
      NilTicketlessStep(cfg, run, k, i, Run, elem);
      var s := TraceSimulated(cfg, run, k, elem);
      assert Consistent(cfg, s, s.threads[i]);
    }
  }

  // ---------------------------------------------------------------- lost claims

  /** The counters and threads alone. */
  ghost function View<T>(n: NilState<T>): State<T> {
    State(n.head, n.tail, [], [], n.threads, multiset{}, multiset{})
  }

  ghost function Views<T>(run: seq<NilState<T>>): (views: seq<State<T>>)
    ensures |views| == |run|
  {
    seq(|run|, k requires 0 <= k < |run| => View(run[k]))
  }

  lemma SameLink<T>(s: State<T>, s': State<T>, n: NilState<T>, n': NilState<T>)
    requires Link(s, s')
    requires s.head == n.head && s.tail == n.tail && s.threads == n.threads
    requires s'.head == n'.head && s'.tail == n'.tail && s'.threads == n'.threads
    ensures Link(View(n), View(n'))
  {
    if o: nat :| ClaimsPush(s, s', o) {
      assert ClaimsPush(View(n), View(n'), o);
    }
    if o: nat :| ClaimsPop(s, s', o) {
      assert ClaimsPop(View(n), View(n'), o);
    }
    forall i | 0 <= i < |n.threads| ensures AtomicQueueClaims.Holds(View(n), View(n'), i) {
      assert AtomicQueueClaims.Holds(s, s', i);
    }
  }

  lemma SlotKeepsCounters<T>(cfg: Config, n: NilState<T>, n': NilState<T>, i: nat)
    requires NilQueue.Sized(cfg, n) && i < |n.threads| && n' == RunNil(cfg, n, i)
    requires n.threads[i].PushWait? || n.threads[i].PopWait?
    ensures n'.head == n.head && n'.tail == n.tail && (n' == n || n'.threads == n.threads[i := Idle])
    ensures Link(View(n), View(n'))
  {
  }

  lemma NilStepLinks<T>(cfg: Config, n: NilState<T>, n': NilState<T>, s: State<T>, i: nat, a: Action<T>)
    requires Simulates(cfg, n, s) && Inv(cfg, s) && Timely(s) && n' == NilStep(cfg, n, i, a)
    ensures Link(View(n), View(n'))
  {
    if i >= |n.threads| {
    } else if n.threads[i].PushWait? || n.threads[i].PopWait? {
      SlotKeepsCounters(cfg, n, n', i);
    } else {
      var s' := Step(cfg, s, i, a);
      CountersAlike(cfg, n, s, i, a);
      StepLinks(cfg, s, s', i, a);
      SameLink(s, s', n, n');
    }
  }

  lemma NilTraceLinks<T(!new)>(cfg: Config, run: seq<NilState<T>>, elem: T)
    requires NilTrace(cfg, run)
    ensures Linked(Views(run))
  {
    forall k | 0 <= k < |run| - 1 ensures Link(Views(run)[k], Views(run)[k + 1]) {
      NilLinkAt(cfg, run, k, elem);
    }
  }

  lemma NilLinkAt<T(!new)>(cfg: Config, run: seq<NilState<T>>, k: nat, elem: T)
    requires NilTrace(cfg, run) && k + 1 < |run|
    ensures Link(View(run[k]), View(run[k + 1]))
  {
    var s := TraceSimulated(cfg, run, k, elem);
    assert NilTimely(run[k]) && NilTransition(cfg, run[k], run[k + 1]);
    var i: nat, a: Action<T> :| run[k + 1] == NilStep(cfg, run[k], i, a);
    NilStepLinks(cfg, run[k], run[k + 1], s, i, a);
  }

  lemma NilPushLost<T(!new)>(cfg: Config, run: seq<NilState<T>>, k: nat, i: nat, elem: T)
    requires NilTrace(cfg, run) && k < |run| && i < |run[k].threads| && run[k].threads[i].PushTested?
    requires !RunNil(cfg, run[k], i).threads[i].PushWait?
    ensures run[k].threads[i].head != run[k].head
    ensures RunNil(cfg, run[k], i).threads[i] == PushRead(run[k].threads[i].elem, run[k].head)
  {
    NilTicketlessStep(cfg, run, k, i, Run, elem);
  }

  lemma NilPopLost<T(!new)>(cfg: Config, run: seq<NilState<T>>, k: nat, i: nat, elem: T)
    requires NilTrace(cfg, run) && k < |run| && i < |run[k].threads| && run[k].threads[i].PopTested?
    requires !RunNil(cfg, run[k], i).threads[i].PopWait?
    ensures run[k].threads[i].tail != run[k].tail
    ensures RunNil(cfg, run[k], i).threads[i] == PopRead(run[k].tail)
  {
    NilTicketlessStep(cfg, run, k, i, Run, elem);
  }

  /** Where a compare-and-swap on the head fails, the call looks again with the head's present value, and
      another thread has claimed a ticket since the load. */
  lemma NilLostPushClaim<T(!new)>(cfg: Config, run: seq<NilState<T>>, k: nat, i: nat, elem: T)
    returns (l: nat, c: nat, o: nat)
    requires NilTrace(cfg, run) && k < |run| && i < |run[k].threads| && run[k].threads[i].PushTested?
    requires !RunNil(cfg, run[k], i).threads[i].PushWait?
    ensures RunNil(cfg, run[k], i).threads[i] == PushRead(run[k].threads[i].elem, run[k].head)
    ensures l <= c < k && PushesSince(Views(run), i, l, k)
    ensures o != i && ClaimsPush(View(run[c]), View(run[c + 1]), o)
  {
    NilPushLost(cfg, run, k, i, elem);
    NilTraceLinks(cfg, run, elem);
    l, c, o := PushedSinceLoad(Views(run), k, i);
  }

  lemma NilLostPopClaim<T(!new)>(cfg: Config, run: seq<NilState<T>>, k: nat, i: nat, elem: T)
    returns (l: nat, c: nat, o: nat)
    requires NilTrace(cfg, run) && k < |run| && i < |run[k].threads| && run[k].threads[i].PopTested?
    requires !RunNil(cfg, run[k], i).threads[i].PopWait?
    ensures RunNil(cfg, run[k], i).threads[i] == PopRead(run[k].tail)
    ensures l <= c < k && PopsSince(Views(run), i, l, k)
    ensures o != i && ClaimsPop(View(run[c]), View(run[c + 1]), o)
  {
    NilPopLost(cfg, run, k, i, elem);
    NilTraceLinks(cfg, run, elem);
    l, c, o := PoppedSinceLoad(Views(run), k, i);
  }
}
