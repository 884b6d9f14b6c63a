/** What becomes of a queue whose size does not divide 2^32 when its 32-bit counters wrap: two
    outstanding tickets meet in one slot, and a push waits in a queue that is not full. */
module AtomicQueueWrap {
  import opened Words
  import opened AtomicQueue
  import opened AtomicQueueProofs
  import opened AtomicQueueTheorems

  /** Unless all calls have finished, some call that holds a ticket can move on. */
  ghost predicate CanMove<T>(cfg: Config, s: State<T>)
    requires Shaped(cfg, s)
  {
    (exists i: nat :: i < |s.threads| && Unfinished(s, i)) ==>
      exists i: nat :: i < |s.threads| && Unfinished(s, i) && Enabled(cfg, s, i)
  }

  ghost predicate AlwaysMoves<T(!new)>(cfg: Config) {
    forall run: seq<State<T>>, k: nat | Interleaving(cfg, run) && k < |run| :: CanMove(cfg, run[k])
  }

  // ---------------------------------------------------------------- one thread at work

  /** The queue as thread 0, alone, leaves it. */
  ghost predicate Alone<T(!new)>(cfg: Config, run: seq<State<T>>) {
    Interleaving(cfg, run) && |run[|run| - 1].threads| == 1
  }

  function Last<T>(run: seq<State<T>>): State<T>
    requires run != []
  {
    run[|run| - 1]
  }

  lemma OneStep<T(!new)>(cfg: Config, run: seq<State<T>>, a: Action<T>, s': State<T>) returns (next: seq<State<T>>)
    requires Alone(cfg, run) && s' == Step(cfg, Last(run), 0, a) && Shaped(cfg, s') && Timely(s') && |s'.threads| == 1
    ensures Alone(cfg, next) && Last(next) == s'
  {
    next := run + [s'];
    assert next[0] == run[0];
    forall k | 0 <= k < |next| - 1 ensures Transition(cfg, next[k], next[k + 1]) {
      if k < |run| - 1 {
        assert Transition(cfg, run[k], run[k + 1]);
      }
    }
  }

  /** Three operations: load the head, find room, claim. */
  lemma Claim<T(!new)>(cfg: Config, run: seq<State<T>>, e: T) returns (next: seq<State<T>>)
    requires Alone(cfg, run) && Last(run).threads == [Idle]
    requires Last(run).tail <= Last(run).head < Last(run).tail + cfg.size
    ensures Alone(cfg, next)
    ensures var s := Last(run);
            Last(next) == s.(head := s.head + 1, threads := [PushWait(e, s.head)], accepted := s.accepted + multiset{e})
  {
    var s := Last(run);
    SignedDiffExact(s.head, s.tail);
    next := OneStep(cfg, run, BeginPush(e), s.(threads := [PushRead(e, s.head)]));
    next := OneStep(cfg, next, Run, s.(threads := [PushTested(e, s.head)]));
    next := OneStep(cfg, next, Run, s.(head := s.head + 1, threads := [PushWait(e, s.head)],
                                       accepted := s.accepted + multiset{e}));
  }

  /** And three more: take the slot, write, publish. */
  lemma Store<T(!new)>(cfg: Config, run: seq<State<T>>, e: T, k: nat) returns (next: seq<State<T>>)
    requires Alone(cfg, run) && Last(run).threads == [PushWait(e, k)] && Last(run).states[cfg.Slot(k)] == EMPTY
    ensures Alone(cfg, next)
    ensures var s, j := Last(run), cfg.Slot(k);
            Last(next) == s.(states := s.states[j := STORED], elems := s.elems[j := e], threads := [Idle])
  {
    var s, j := Last(run), cfg.Slot(k);
    var owned := s.(states := s.states[j := STORING], threads := [PushOwn(e, k)]);
    next := OneStep(cfg, run, Run, owned);
    var written := owned.(elems := s.elems[j := e], threads := [PushWritten(e, k)]);
    next := OneStep(cfg, next, Run, written);
    assert owned.states[j := STORED] == s.states[j := STORED];
    next := OneStep(cfg, next, Run, written.(states := s.states[j := STORED], threads := [Idle]));
  }

  lemma ClaimPop<T(!new)>(cfg: Config, run: seq<State<T>>) returns (next: seq<State<T>>)
    requires Alone(cfg, run) && Last(run).threads == [Idle]
    requires Last(run).tail < Last(run).head <= Last(run).tail + cfg.size
    ensures Alone(cfg, next)
    ensures var s := Last(run); Last(next) == s.(tail := s.tail + 1, threads := [PopWait(s.tail)])
  {
    var s := Last(run);
    SignedDiffExact(s.head, s.tail);
    next := OneStep(cfg, run, BeginPop, s.(threads := [PopRead(s.tail)]));
    next := OneStep(cfg, next, Run, s.(threads := [PopTested(s.tail)]));
    next := OneStep(cfg, next, Run, s.(tail := s.tail + 1, threads := [PopWait(s.tail)]));
  }

  lemma Take<T(!new)>(cfg: Config, run: seq<State<T>>, k: nat) returns (next: seq<State<T>>)
    requires Alone(cfg, run) && Last(run).threads == [PopWait(k)] && Last(run).states[cfg.Slot(k)] == STORED
    ensures Alone(cfg, next)
    ensures var s, j := Last(run), cfg.Slot(k);
            Last(next) == s.(states := s.states[j := EMPTY], threads := [Idle],
              returned := s.returned + multiset{s.elems[j]})
  {
    var s, j := Last(run), cfg.Slot(k);
    var e := s.elems[j];
    var owned := s.(states := s.states[j := LOADING], threads := [PopOwn(k, e)]);
    next := OneStep(cfg, run, Run, owned);
    next := OneStep(cfg, next, Run, owned.(threads := [PopMoved(k, e)]));
    assert owned.states[j := EMPTY] == s.states[j := EMPTY];
    next := OneStep(cfg, next, Run, owned.(states := s.states[j := EMPTY], threads := [Idle],
                                           returned := s.returned + multiset{e}));
  }

  // ---------------------------------------------------------------- the run

  /** Nothing is stored, and `n` elements have gone through. */
  ghost predicate Empty<T>(s: State<T>, n: nat) {
    s.head == s.tail == n && s.threads == [Idle] && forall j | 0 <= j < |s.states| :: s.states[j] == EMPTY
  }

  /** `n` elements, pushed and popped one at a time. */
  lemma {:induction false} GoThrough<T(!new)>(cfg: Config, e: T, n: nat) returns (run: seq<State<T>>)
    requires cfg.WellFormed()
    ensures Alone(cfg, run) && Empty(Last(run), n)
  {
    if n == 0 {
      var elems := seq(cfg.size, _ => e);
      run := [Init(cfg, elems, 1)];
      assert Shaped(cfg, run[0]);
    } else {
      run := GoThrough(cfg, e, n - 1);
      run := Claim(cfg, run, e);
      run := Store(cfg, run, e, n - 1);
      run := ClaimPop(cfg, run);
      run := Take(cfg, run, n - 1);
    }
  }

  /** Of the tickets from `t` on, `m` are stored, each in its own slot. */
  ghost predicate Holds<T>(cfg: Config, s: State<T>, t: nat, m: nat)
    requires Shaped(cfg, s) && m <= cfg.size
  {
    && s.tail == t && s.head == t + m && s.threads == [Idle]
    && forall j | 0 <= j < cfg.size :: s.states[j] == if j in cfg.remap[..m] then STORED else EMPTY
  }

  /** The slots of the last tickets before the wrap, where `t` is a multiple of the size. */
  lemma SlotBefore(cfg: Config, t: nat, q: nat, l: nat)
    requires cfg.WellFormed() && t == q * cfg.size && l < cfg.size && t + l < TWO32
    ensures cfg.Slot(t + l) == cfg.remap[l]
  {
    ModUnique(t + l, q, l, cfg.size);
  }

  lemma {:induction false} Fill<T(!new)>(cfg: Config, e: T, t: nat, q: nat, m: nat) returns (run: seq<State<T>>)
    requires cfg.WellFormed() && t == q * cfg.size && m < cfg.size && t + m <= TWO32
    ensures Alone(cfg, run) && Holds(cfg, Last(run), t, m)
  {
    if m == 0 {
      run := GoThrough(cfg, e, t);
    } else {
      run := Fill(cfg, e, t, q, m - 1);
      SlotBefore(cfg, t, q, m - 1);
      assert cfg.remap[..m] == cfg.remap[..m - 1] + [cfg.remap[m - 1]];
      assert cfg.remap[m - 1] !in cfg.remap[..m - 1];
      run := Claim(cfg, run, e);
      run := Store(cfg, run, e, t + m - 1);
    }
  }

  /** For every size that does not divide 2^32: with p = 2^32 % size, after 2^32 - p elements went
      through and p more wait in the queue, a push of one more, ticket 2^32, waits for the slot of the
      oldest of them, although the queue is not full. */
  lemma WrapStrands<T(!new)>(cfg: Config, e: T) returns (run: seq<State<T>>)
    requires cfg.WellFormed() && TWO32 % cfg.size != 0
    ensures Interleaving(cfg, run) && run != []
    ensures var s := Last(run);
            && s.head - s.tail == TWO32 % cfg.size + 1 <= cfg.size
            && |s.threads| == 1 && Unfinished(s, 0) && !CanMove(cfg, s)
  {
    var p, q := TWO32 % cfg.size, TWO32 / cfg.size;
    var t := q * cfg.size;
    assert TWO32 == t + p;
    run := Fill(cfg, e, t, q, p);
    run := Claim(cfg, run, e);
    var s := Last(run);
    assert Word(TWO32) == 0 && s.threads == [PushWait(e, TWO32)];
    ModUnique(0, 0, 0, cfg.size);
    assert cfg.remap[..p][0] == cfg.remap[0];
    assert s.states[cfg.Slot(TWO32)] == STORED;
  }

  /** No interleaving ever gets stuck exactly when the size divides 2^32. */
  lemma NeverStuckIff<T(!new)>(cfg: Config, e: T)
    requires cfg.WellFormed()
    ensures AlwaysMoves<T>(cfg) <==> TWO32 % cfg.size == 0
  {
    if TWO32 % cfg.size == 0 {
      forall run: seq<State<T>>, k: nat | Interleaving(cfg, run) && k < |run| ensures CanMove(cfg, run[k]) {
        NoReachableStateIsStuck(cfg, run, k);
      }
    } else {
      var run := WrapStrands(cfg, e);
      var k: nat := |run| - 1;
      assert !CanMove(cfg, run[k]);
    }
  }
}
