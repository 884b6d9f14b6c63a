/** What a lost compare-and-swap means: another thread has claimed a ticket since the counter was loaded,
    and the call looks again with the counter's present value. */
module AtomicQueueClaims {
  import opened AtomicQueue
  import opened AtomicQueueProofs
  import opened AtomicQueueTheorems

  /** Thread `o` takes a ticket. */
  ghost predicate ClaimsPush<T>(s: State<T>, s': State<T>, o: nat) {
    && o < |s.threads| == |s'.threads| && s.threads[o].PushTested?
    && s'.threads[o] == PushWait(s.threads[o].elem, s.head) && s'.head == s.head + 1
  }

  ghost predicate ClaimsPop<T>(s: State<T>, s': State<T>, o: nat) {
    && o < |s.threads| == |s'.threads| && s.threads[o].PopTested?
    && s'.threads[o] == PopWait(s.tail) && s'.tail == s.tail + 1
  }

  /** Thread `i` holds a counter's present value, or the one it held before. */
  ghost predicate Holds<T>(s: State<T>, s': State<T>, i: nat)
    requires i < |s.threads| && i < |s'.threads|
  {
    var t, t' := s.threads[i], s'.threads[i];
    && (Pushing(t') && t'.head != s'.head ==> Pushing(t) && t.head == t'.head)
    && (Popping(t') && t'.tail != s'.tail ==> Popping(t) && t.tail == t'.tail)
  }

  /** What a step does to the counters and to the values threads hold. */
  ghost predicate Link<T>(s: State<T>, s': State<T>) {
    && |s'.threads| == |s.threads|
    && (forall i | 0 <= i < |s.threads| :: Holds(s, s', i))
    && (s'.head != s.head ==> exists o: nat :: ClaimsPush(s, s', o))
    && (s'.tail != s.tail ==> exists o: nat :: ClaimsPop(s, s', o))
  }

  lemma SlotSide<T>(cfg: Config, s: State<T>, s': State<T>, m: nat)
    requires Shaped(cfg, s) && m < |s.threads| && !Free(s.threads[m]) && s' == RunThread(cfg, s, m)
    ensures s'.head == s.head && s'.tail == s.tail && |s'.threads| == |s.threads|
    ensures s'.threads == s.threads[m := s'.threads[m]] && !Pushing(s'.threads[m]) && !Popping(s'.threads[m])
  {
  }

  lemma IdleStep<T>(cfg: Config, s: State<T>, t': Thread<T>, m: nat, a: Action<T>)
    requires Shaped(cfg, s) && m < |s.threads| && s.threads[m].Idle? && t' == Step(cfg, s, m, a).threads[m]
    ensures t'.Idle? || (t'.PushRead? && t'.head == s.head) || t' == PopRead(s.tail)
  {
  }

  lemma StepLinks<T>(cfg: Config, s: State<T>, s': State<T>, m: nat, a: Action<T>)
    requires Inv(cfg, s) && Timely(s) && s' == Step(cfg, s, m, a)
    ensures Link(s, s')
  {
    if m < |s.threads| {
      if Free(s.threads[m]) {
        TicketlessStep(cfg, s, m, a);
        if s.threads[m].Idle? {
          IdleStep(cfg, s, s'.threads[m], m, a);
        }
        FreeLinks(s, s', m, s.threads[m], s'.threads[m]);
      } else {
        SlotSide(cfg, s, s', m);
      }
    }
  }

  lemma FreeLinks<T>(s: State<T>, s': State<T>, m: nat, t: Thread<T>, t': Thread<T>)
    requires m < |s.threads| == |s'.threads| && t == s.threads[m] && s'.threads == s.threads[m := t'] && Free(t)
    requires s'.head == s.head + (if t.PushTested? && t.head == s.head then 1 else 0)
    requires s'.tail == s.tail + (if t.PopTested? && t.tail == s.tail then 1 else 0)
    requires t.Idle? ==> t'.Idle? || (t'.PushRead? && t'.head == s.head) || t' == PopRead(s.tail)
    requires t.PushRead? ==> t'.Idle? || t' == PushTested(t.elem, t.head)
    requires t.PopRead? ==> t'.Idle? || t' == PopTested(t.tail)
    requires t.PushTested? ==> t' == if t.head == s.head then PushWait(t.elem, s.head) else PushRead(t.elem, s.head)
    requires t.PopTested? ==> t' == if t.tail == s.tail then PopWait(s.tail) else PopRead(s.tail)
    ensures Link(s, s')
  {
    if s'.head != s.head {
      assert ClaimsPush(s, s', m);
    }
    if s'.tail != s.tail {
      assert ClaimsPop(s, s', m);
    }
  }

  /** A run, seen as what its steps do to the counters. */
  ghost predicate Linked<T>(run: seq<State<T>>) {
    && run != [] && (forall i | 0 <= i < |run[0].threads| :: run[0].threads[i] == Idle)
    && forall k | 0 <= k < |run| - 1 :: Link(run[k], run[k + 1])
  }

  lemma TraceLinks<T(!new)>(cfg: Config, run: seq<State<T>>)
    requires Trace(cfg, run)
    ensures Linked(run)
  {
    forall k | 0 <= k < |run| - 1 ensures Link(run[k], run[k + 1]) {
      TraceHasInv(cfg, run, k);
      LinkAt(cfg, run, k);
    }
  }

  lemma LinkAt<T(!new)>(cfg: Config, run: seq<State<T>>, k: nat)
    requires Trace(cfg, run) && k + 1 < |run| && Inv(cfg, run[k])
    ensures Link(run[k], run[k + 1])
  {
    assert Transition(cfg, run[k], run[k + 1]);
    var m: nat, a: Action<T> :| run[k + 1] == Step(cfg, run[k], m, a);
    StepLinks(cfg, run[k], run[k + 1], m, a);
  }

  // ---------------------------------------------------------------- since the load

  /** From the `l`-th to the `k`-th state, thread `i` pushes on with what the head was in the `l`-th. */
  ghost predicate PushesSince<T>(run: seq<State<T>>, i: nat, l: nat, k: nat)
    requires l <= k < |run|
  {
    forall m | l <= m <= k ::
      i < |run[m].threads| && Pushing(run[m].threads[i]) && run[m].threads[i].head == run[l].head
  }

  ghost predicate PopsSince<T>(run: seq<State<T>>, i: nat, l: nat, k: nat)
    requires l <= k < |run|
  {
    forall m | l <= m <= k ::
      i < |run[m].threads| && Popping(run[m].threads[i]) && run[m].threads[i].tail == run[l].tail
  }

  /** The value a call holds is the counter's value at an earlier moment of the same call. */
  lemma {:induction false} PushLoadedAt<T>(run: seq<State<T>>, k: nat, i: nat) returns (l: nat)
    requires Linked(run) && k < |run| && i < |run[k].threads| && Pushing(run[k].threads[i])
    ensures l <= k && PushesSince(run, i, l, k)
  {
    l := k;
    if run[k].threads[i].head != run[k].head && k > 0 {
      assert Link(run[k - 1], run[k - 1 + 1]) && Holds(run[k - 1], run[k], i);
      l := PushLoadedAt(run, k - 1, i);
    }
  }

  lemma {:induction false} PopLoadedAt<T>(run: seq<State<T>>, k: nat, i: nat) returns (l: nat)
    requires Linked(run) && k < |run| && i < |run[k].threads| && Popping(run[k].threads[i])
    ensures l <= k && PopsSince(run, i, l, k)
  {
    l := k;
    if run[k].threads[i].tail != run[k].tail && k > 0 {
      assert Link(run[k - 1], run[k - 1 + 1]) && Holds(run[k - 1], run[k], i);
      l := PopLoadedAt(run, k - 1, i);
    }
  }

  /** The head moved on while thread `i` did not move it: another thread did. */
  lemma {:induction false} PushedOn<T>(run: seq<State<T>>, l: nat, k: nat, i: nat) returns (c: nat, o: nat)
    requires Linked(run) && l <= k < |run| && PushesSince(run, i, l, k) && run[l].head != run[k].head
    ensures l <= c < k && o != i && ClaimsPush(run[c], run[c + 1], o)
  {
    assert Link(run[k - 1], run[k - 1 + 1]);
    if run[k - 1].head == run[k].head {
      c, o := PushedOn(run, l, k - 1, i);
    } else {
      c := k - 1;
      o :| ClaimsPush(run[k - 1], run[k], o);
    }
  }

  lemma {:induction false} PoppedOn<T>(run: seq<State<T>>, l: nat, k: nat, i: nat) returns (c: nat, o: nat)
    requires Linked(run) && l <= k < |run| && PopsSince(run, i, l, k) && run[l].tail != run[k].tail
    ensures l <= c < k && o != i && ClaimsPop(run[c], run[c + 1], o)
  {
    assert Link(run[k - 1], run[k - 1 + 1]);
    if run[k - 1].tail == run[k].tail {
      c, o := PoppedOn(run, l, k - 1, i);
    } else {
      c := k - 1;
      o :| ClaimsPop(run[k - 1], run[k], o);
    }
  }

  lemma PushedSinceLoad<T>(run: seq<State<T>>, k: nat, i: nat) returns (l: nat, c: nat, o: nat)
    requires Linked(run) && k < |run| && i < |run[k].threads| && run[k].threads[i].PushTested?
    requires run[k].threads[i].head != run[k].head
    ensures l <= c < k && PushesSince(run, i, l, k) && o != i && ClaimsPush(run[c], run[c + 1], o)
  {
    l := PushLoadedAt(run, k, i);
    c, o := PushedOn(run, l, k, i);
  }

  lemma PoppedSinceLoad<T>(run: seq<State<T>>, k: nat, i: nat) returns (l: nat, c: nat, o: nat)
    requires Linked(run) && k < |run| && i < |run[k].threads| && run[k].threads[i].PopTested?
    requires run[k].threads[i].tail != run[k].tail
    ensures l <= c < k && PopsSince(run, i, l, k) && o != i && ClaimsPop(run[c], run[c + 1], o)
  {
    l := PopLoadedAt(run, k, i);
    c, o := PoppedOn(run, l, k, i);
  }

  // ---------------------------------------------------------------- the theorems

  /** Where a thread's compare-and-swap on the head fails, it looks again with the head's present value,
      and in between another thread has claimed a ticket. */
  lemma LostPushClaim<T(!new)>(cfg: Config, run: seq<State<T>>, k: nat, i: nat) returns (l: nat, c: nat, o: nat)
    requires Trace(cfg, run) && k < |run| && i < |run[k].threads| && run[k].threads[i].PushTested?
    requires !RunThread(cfg, run[k], i).threads[i].PushWait?
    ensures RunThread(cfg, run[k], i)
            == run[k].(threads := run[k].threads[i := PushRead(run[k].threads[i].elem, run[k].head)])
    ensures l <= c < k && PushesSince(run, i, l, k) && o != i && ClaimsPush(run[c], run[c + 1], o)
  {
    PushLostStep(cfg, run, k, i);
    TraceLinks(cfg, run);
    l, c, o := PushedSinceLoad(run, k, i);
  }

  lemma PushLostStep<T(!new)>(cfg: Config, run: seq<State<T>>, k: nat, i: nat)
    requires Trace(cfg, run) && k < |run| && i < |run[k].threads| && run[k].threads[i].PushTested?
    requires !RunThread(cfg, run[k], i).threads[i].PushWait?
    ensures run[k].threads[i].head != run[k].head
    ensures RunThread(cfg, run[k], i)
            == run[k].(threads := run[k].threads[i := PushRead(run[k].threads[i].elem, run[k].head)])
  {
    TraceHasInv(cfg, run, k);
    TicketlessStep(cfg, run[k], i, Run);
  }

  lemma LostPopClaim<T(!new)>(cfg: Config, run: seq<State<T>>, k: nat, i: nat) returns (l: nat, c: nat, o: nat)
    requires Trace(cfg, run) && k < |run| && i < |run[k].threads| && run[k].threads[i].PopTested?
    requires !RunThread(cfg, run[k], i).threads[i].PopWait?
    ensures RunThread(cfg, run[k], i) == run[k].(threads := run[k].threads[i := PopRead(run[k].tail)])
    ensures l <= c < k && PopsSince(run, i, l, k) && o != i && ClaimsPop(run[c], run[c + 1], o)
  {
    PopLostStep(cfg, run, k, i);
    TraceLinks(cfg, run);
    l, c, o := PoppedSinceLoad(run, k, i);
  }

  lemma PopLostStep<T(!new)>(cfg: Config, run: seq<State<T>>, k: nat, i: nat)
    requires Trace(cfg, run) && k < |run| && i < |run[k].threads| && run[k].threads[i].PopTested?
    requires !RunThread(cfg, run[k], i).threads[i].PopWait?
    ensures run[k].threads[i].tail != run[k].tail
    ensures RunThread(cfg, run[k], i) == run[k].(threads := run[k].threads[i := PopRead(run[k].tail)])
  {
    TraceHasInv(cfg, run, k);
    TicketlessStep(cfg, run[k], i, Run);
  }
}
