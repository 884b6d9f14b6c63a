/** The queue's promises over all interleavings of `try_push` and `try_pop`. */
module AtomicQueueTheorems {
  import opened Counting
  import opened Words
  import opened AtomicQueue
  import opened AtomicQueueProofs

  // ---------------------------------------------------------------- the slot map across the wrap

  /** The slot computed from the 32-bit word of ticket `n`, before the shuffle. */
  function WordSlot(size: nat, n: nat): nat
    requires size > 0
  {
    Word(n) % size
  }

  ghost predicate WindowsHitDistinctSlots(size: nat)
    requires size > 0
  {
    forall a: nat, b: nat | a < b < a + size :: WordSlot(size, a) != WordSlot(size, b)
  }

  /** Wrapping `unsigned` tickets give every window one ticket per slot exactly when the size
      divides 2^32. A size that does not makes tickets 2^32 - (2^32 % size) and 2^32 collide. */
  lemma WrapSafeIffSizeDivides(size: nat)
    requires 1 <= size <= TWO32
    ensures WindowsHitDistinctSlots(size) <==> TWO32 % size == 0
  {
    if TWO32 % size == 0 {
      forall a: nat, b: nat | a < b < a + size ensures WordSlot(size, a) != WordSlot(size, b) {
        WordKeepsResidue(size, a);
        WordKeepsResidue(size, b);
        ResiduesApart(a, b, size);
      }
    } else {
      var p, q := TWO32 % size, TWO32 / size;
      assert TWO32 == q * size + p;
      ModUnique(TWO32 - p, q, 0, size);
      assert Word(TWO32 - p) == TWO32 - p && Word(TWO32) == 0;
      ModUnique(0, 0, 0, size);
      assert WordSlot(size, TWO32 - p) == WordSlot(size, TWO32);
    }
  }

  /** The exact reach of the full test: a load `h` read against a tail `t` gives the unbounded
      verdict unless the head is so stale that the wrapped difference turns positive again. */
  lemma FullTestExactIff(h: nat, t: nat, size: nat)
    requires 1 <= size < TWO31 && t - TWO32 < h <= t + size
    ensures (SignedDiff(Word(h), Word(t)) >= size <==> h - t >= size)
       <==> !(size - TWO32 <= h - t < -(TWO31 as int))
  {
    if h - t >= -(TWO31 as int) {
      SignedDiffExact(h, t);
    } else {
      WordOffset(h, t);
      ModShift(h - t, 1);
      assert SignedDiff(Word(h), Word(t)) == h - t + TWO32;
    }
  }

  // ---------------------------------------------------------------- safety of every reachable state

  /** At most `size` tickets are outstanding, although both counters are loaded before they are
      claimed. */
  lemma TicketWindow<T(!new)>(cfg: Config, run: seq<State<T>>, k: nat)
    requires Trace(cfg, run) && k < |run|
    ensures run[k].tail <= run[k].head <= run[k].tail + cfg.size
  {
    TraceHasInv(cfg, run, k);
  }

  /** The calls up to the claim, operation by operation. A call begins by loading its counter. With
      the counter loaded, it gives up exactly when that value leaves no room, or nothing to take. Then it
      claims exactly when the counter still has that value, and otherwise loads it and looks again. */
  lemma TicketlessStep<T>(cfg: Config, s: State<T>, i: nat, a: Action<T>)
    requires Inv(cfg, s) && Timely(s) && i < |s.threads| && Free(s.threads[i])
    ensures var t, t' := s.threads[i], Step(cfg, s, i, a).threads[i];
            && (t.Idle? && a.BeginPush? ==> t' == PushRead(a.elem, s.head))
            && (t.Idle? && a.BeginPop? ==> t' == PopRead(s.tail))
            && (t.PushRead? ==> t' == if t.head == s.tail + cfg.size then Idle else PushTested(t.elem, t.head))
            && (t.PopRead? ==> t' == if t.tail == s.head then Idle else PopTested(t.tail))
            && (t.PushTested? ==> t' == if t.head == s.head then PushWait(t.elem, s.head) else PushRead(t.elem, s.head))
            && (t.PopTested? ==> t' == if t.tail == s.tail then PopWait(s.tail) else PopRead(s.tail))
    ensures var t, s' := s.threads[i], Step(cfg, s, i, a);
            && s'.head == s.head + (if t.PushTested? && t.head == s.head then 1 else 0)
            && s'.tail == s.tail + (if t.PopTested? && t.tail == s.tail then 1 else 0)
            && s'.states == s.states && s'.elems == s.elems && s'.returned == s.returned
            && s'.accepted == s.accepted + (if t.PushTested? && t.head == s.head then multiset{t.elem} else multiset{})
            && s'.threads == s.threads[i := s'.threads[i]]
  {
    var t := s.threads[i];
    assert Consistent(cfg, s, t) && TimelyThread(s, t);
    match t {
      case PushRead(_, h) => SignedDiffExact(h, s.tail);
      case PopRead(k) => SignedDiffExact(s.head, k);
      case PushTested(_, h) => WordEqual(h, s.head);
      case PopTested(k) => WordEqual(k, s.tail);
      case _ =>
    }
  }

  /** Inside a call that pushes, without a ticket yet. */
  predicate Pushing<T>(t: Thread<T>) {
    t.PushRead? || t.PushTested?
  }

  predicate Popping<T>(t: Thread<T>) {
    t.PopRead? || t.PopTested?
  }

  /** A `try_push` gives up only in a state whose window is full, a `try_pop` only in one whose
      window is empty, from wherever it stands without a ticket. */
  lemma RefusalsAreExact<T(!new)>(cfg: Config, run: seq<State<T>>, k: nat, i: nat)
    requires Trace(cfg, run) && k < |run| && i < |run[k].threads|
    requires RunThread(cfg, run[k], i).threads[i].Idle?
    ensures Pushing(run[k].threads[i]) ==> run[k].head == run[k].tail + cfg.size
    ensures Popping(run[k].threads[i]) ==> run[k].head == run[k].tail
  {
    TraceHasInv(cfg, run, k);
    var s := run[k];
    assert Consistent(cfg, s, s.threads[i]);
    if Free(s.threads[i]) {
      TicketlessStep(cfg, s, i, Run);
    }
  }

  /** Touches the non-atomic element of slot `j` now. */
  ghost predicate Touches<T>(cfg: Config, s: State<T>, i: nat, j: nat)
    requires cfg.WellFormed() && i < |s.threads|
  {
    Stores(cfg, j)(s.threads[i]) || Loads(cfg, j)(s.threads[i])
  }

  /** No two threads are ever inside the same slot, so the plain element is never raced for. */
  lemma NoElementRace<T(!new)>(cfg: Config, run: seq<State<T>>, k: nat, i: nat, l: nat, j: nat)
    requires Trace(cfg, run) && k < |run| && i < |run[k].threads| && l < |run[k].threads| && j < cfg.size
    requires Touches(cfg, run[k], i, j) && Touches(cfg, run[k], l, j)
    ensures i == l
  {
    TraceHasInv(cfg, run, k);
    if i != l {
      SoleOwner(cfg, run[k], i, l, j);
    }
  }

  /** Exactly once: what was accepted is what was returned, what threads carry and what STORED
      slots hold, with multiplicities. */
  lemma Conservation<T(!new)>(cfg: Config, run: seq<State<T>>, k: nat)
    requires Trace(cfg, run) && k < |run|
    ensures run[k].accepted
         == run[k].returned + Gather(run[k].threads, Carried) + Gather(Slots(run[k]), Content)
  {
    TraceHasInv(cfg, run, k);
  }

  // ---------------------------------------------------------------- progress

  /** Holds a claimed ticket whose call is unfinished. */
  ghost predicate Unfinished<T>(s: State<T>, i: nat)
    requires i < |s.threads|
  {
    !Free(s.threads[i])
  }

  /** If a claimed ticket is unfinished, some ticket holder has a step that is not a spin; when the
      ticket holder itself spins, the one that can move works on the very same slot. */
  lemma NotStuckAt<T>(cfg: Config, s: State<T>, i: nat) returns (k: nat)
    requires Inv(cfg, s) && i < |s.threads| && Unfinished(s, i)
    ensures k < |s.threads| && Unfinished(s, k) && Enabled(cfg, s, k)
    ensures cfg.Slot(s.threads[k].ticket) == cfg.Slot(s.threads[i].ticket)
  {
    var j := cfg.Slot(s.threads[i].ticket);
    assert Balanced(cfg, s, j) && Consistent(cfg, s, s.threads[i]);
    ClaimsInWindow(cfg, s.tail, s.head, j);
    if Enabled(cfg, s, i) {
      k := i;
    } else if s.states[j] == STORING {
      k := CountWitness(s.threads, Stores(cfg, j));
    } else if s.states[j] == LOADING {
      k := CountWitness(s.threads, Loads(cfg, j));
    } else if s.threads[i].PushWait? {
      CountOne(s.threads, i, WaitsToPush(cfg, j));
      k := CountWitness(s.threads, WaitsToPop(cfg, j));
    } else {
      CountOne(s.threads, i, WaitsToPop(cfg, j));
      k := CountWitness(s.threads, WaitsToPush(cfg, j));
    }
  }

  lemma NoReachableStateIsStuck<T(!new)>(cfg: Config, run: seq<State<T>>, k: nat)
    requires Trace(cfg, run) && k < |run|
    ensures (exists i | 0 <= i < |run[k].threads| :: Unfinished(run[k], i)) ==>
              exists i | 0 <= i < |run[k].threads| :: Unfinished(run[k], i) && Enabled(cfg, run[k], i)
  {
    TraceHasInv(cfg, run, k);
    if i :| 0 <= i < |run[k].threads| && Unfinished(run[k], i) {
      var l := NotStuckAt(cfg, run[k], i);
    }
  }

  /** Steps left until the call of `t` returns, once its ticket is claimed. */
  function Remaining<T>(t: Thread<T>): nat {
    match t
    case PushWait(_, _) => 3
    case PushOwn(_, _) => 2
    case PushWritten(_, _) => 1
    case PopWait(_) => 3
    case PopOwn(_, _) => 2
    case PopMoved(_, _) => 1
    case _ => 0
  }

  ghost function Work<T>(ts: seq<Thread<T>>): nat {
    if ts == [] then 0 else Remaining(ts[0]) + Work(ts[1..])
  }

  lemma {:induction false} WorkUpdate<T>(ts: seq<Thread<T>>, i: nat, t: Thread<T>)
    requires i < |ts|
    ensures Work(ts[i := t]) + Remaining(ts[i]) == Work(ts) + Remaining(t)
  {
    if i == 0 {
      assert ts[i := t][1..] == ts[1..];
    } else {
      assert ts[i := t][1..] == ts[1..][i - 1 := t];
      WorkUpdate(ts[1..], i - 1, t);
    }
  }

  lemma WorkShrinks<T>(cfg: Config, s: State<T>, i: nat)
    requires Shaped(cfg, s) && i < |s.threads| && Unfinished(s, i) && Enabled(cfg, s, i)
    ensures Work(RunThread(cfg, s, i).threads) == Work(s.threads) - 1
    ensures RunThread(cfg, s, i).head == s.head && RunThread(cfg, s, i).tail == s.tail
  {
    var t' := RunThread(cfg, s, i).threads[i];
    WorkUpdate(s.threads, i, t');
    assert RunThread(cfg, s, i).threads == s.threads[i := t'];
  }

  /** A ticket holder's step that is not a spin: it keeps the invariant and the counters and uses up
      one unit of work. Only a new claim adds any, so every fair run in which no more tickets are
      claimed finishes every call. */
  ghost predicate HolderStep<T>(cfg: Config, s: State<T>, i: nat, s': State<T>) {
    && Inv(cfg, s) && i < |s.threads| && Unfinished(s, i) && Enabled(cfg, s, i)
    && s' == RunThread(cfg, s, i)
  }

  lemma HoldersFinish<T>(cfg: Config, s: State<T>, i: nat, s': State<T>)
    requires HolderStep(cfg, s, i, s')
    ensures Inv(cfg, s') && Work(s'.threads) == Work(s.threads) - 1
    ensures s'.head == s.head && s'.tail == s.tail
  {
    WorkShrinks(cfg, s, i);
    if s.threads[i].PushWait? || s.threads[i].PushOwn? || s.threads[i].PushWritten? {
      StoringKeepsInv(cfg, s, i);
    } else {
      LoadingKeepsInv(cfg, s, i);
    }
  }

  ghost predicate Quiet<T>(s: State<T>) {
    forall i | 0 <= i < |s.threads| :: !Unfinished(s, i)
  }

  ghost predicate Path<T>(cfg: Config, path: seq<State<T>>, movers: seq<nat>) {
    && |path| == |movers| + 1
    && forall k | 0 <= k < |movers| :: HolderStep(cfg, path[k], movers[k], path[k + 1])
  }

  lemma PathPrepend<T>(cfg: Config, s: State<T>, i: nat, path: seq<State<T>>, movers: seq<nat>)
    requires Path(cfg, path, movers) && HolderStep(cfg, s, i, path[0])
    ensures Path(cfg, [s] + path, [i] + movers)
  {
    var path', movers' := [s] + path, [i] + movers;
    forall k | 0 <= k < |movers'| ensures HolderStep(cfg, path'[k], movers'[k], path'[k + 1]) {
      if k > 0 {
        assert HolderStep(cfg, path[k - 1], movers[k - 1], path[k - 1 + 1]);
      }
    }
  }

  /** From every state the calls under way can all be completed without claiming another ticket. */
  lemma {:induction false} CanDrain<T>(cfg: Config, s: State<T>) returns (path: seq<State<T>>, movers: seq<nat>)
    requires Inv(cfg, s)
    ensures Path(cfg, path, movers) && path[0] == s && |movers| == Work(s.threads)
    ensures Inv(cfg, path[|movers|]) && Quiet(path[|movers|])
    ensures path[|movers|].head == s.head && path[|movers|].tail == s.tail
    decreases Work(s.threads)
  {
    if i :| 0 <= i < |s.threads| && Unfinished(s, i) {
      var k := NotStuckAt(cfg, s, i);
      var s' := RunThread(cfg, s, k);
      HoldersFinish(cfg, s, k, s');
      var path', movers' := CanDrain(cfg, s');
      PathPrepend(cfg, s, k, path', movers');
      path, movers := [s] + path', [k] + movers';
      assert path[|movers|] == path'[|movers'|];
    } else {
      path, movers := [s], [];
      forall i | 0 <= i < |s.threads| ensures Remaining(s.threads[i]) == 0 {
        assert !Unfinished(s, i);
      }
      WorkZero(s.threads);
    }
  }

  lemma {:induction false} WorkZero<T>(ts: seq<Thread<T>>)
    requires forall i | 0 <= i < |ts| :: Remaining(ts[i]) == 0
    ensures Work(ts) == 0
  {
    if ts != [] {
      WorkZero(ts[1..]);
    }
  }

  // ---------------------------------------------------------------- quiet states

  function IsStored(): SlotState -> bool {
    (st: SlotState) => st == STORED
  }

  /** Claims of the slots below `m`, summed. */
  ghost function ClaimsBelow(cfg: Config, n: nat, m: nat): nat
    requires cfg.WellFormed()
  {
    if m == 0 then 0 else ClaimsBelow(cfg, n, m - 1) + Claims(cfg, n, m - 1)
  }

  lemma {:induction false} ClaimsBelowStep(cfg: Config, n: nat, m: nat)
    requires cfg.WellFormed() && n > 0
    ensures ClaimsBelow(cfg, n, m) == ClaimsBelow(cfg, n - 1, m) + Bit(cfg.Slot(n - 1) < m)
  {
    if m > 0 {
      ClaimsBelowStep(cfg, n, m - 1);
    }
  }

  lemma {:induction false} ClaimsBelowZero(cfg: Config, m: nat)
    requires cfg.WellFormed()
    ensures ClaimsBelow(cfg, 0, m) == 0
  {
    if m > 0 {
      ClaimsBelowZero(cfg, m - 1);
    }
  }

  /** Every ticket belongs to one slot. */
  lemma {:induction false} ClaimsTotal(cfg: Config, n: nat)
    requires cfg.WellFormed()
    ensures ClaimsBelow(cfg, n, cfg.size) == n
  {
    if n == 0 {
      ClaimsBelowZero(cfg, cfg.size);
    } else {
      ClaimsTotal(cfg, n - 1);
      ClaimsBelowStep(cfg, n, cfg.size);
    }
  }

  lemma {:induction false} StoredBelow<T>(cfg: Config, s: State<T>, m: nat)
    requires Shaped(cfg, s) && m <= cfg.size
    requires forall j | 0 <= j < cfg.size ::
               Claims(cfg, s.head, j) == Claims(cfg, s.tail, j) + Bit(s.states[j] == STORED)
    ensures ClaimsBelow(cfg, s.head, m) == ClaimsBelow(cfg, s.tail, m) + Count(s.states[..m], IsStored())
  {
    if m > 0 {
      StoredBelow(cfg, s, m - 1);
      assert s.states[..m] == s.states[..m - 1] + [s.states[m - 1]];
      CountOneMore(s.states[..m - 1], s.states[m - 1], IsStored());
    }
  }

  /** Once no ticket is in flight, exactly head - tail slots are STORED, the rest are EMPTY, and the
      elements accepted and not yet returned are the ones in the slots. */
  lemma QuietQueueHoldsTheRest<T>(cfg: Config, s: State<T>)
    requires Inv(cfg, s) && Quiet(s)
    ensures Count(s.states, IsStored()) == s.head - s.tail
    ensures forall j | 0 <= j < cfg.size :: s.states[j] == EMPTY || s.states[j] == STORED
    ensures s.accepted == s.returned + Gather(Slots(s), Content)
  {
    forall j | 0 <= j < cfg.size
      ensures s.states[j] == EMPTY || s.states[j] == STORED
      ensures Claims(cfg, s.head, j) == Claims(cfg, s.tail, j) + Bit(s.states[j] == STORED)
    {
      assert Balanced(cfg, s, j);
      forall i | 0 <= i < |s.threads|
        ensures !WaitsToPush(cfg, j)(s.threads[i]) && !WaitsToPop(cfg, j)(s.threads[i])
        ensures !Stores(cfg, j)(s.threads[i]) && !Loads(cfg, j)(s.threads[i])
      {
        assert !Unfinished(s, i);
      }
      CountNone(s.threads, WaitsToPush(cfg, j));
      CountNone(s.threads, WaitsToPop(cfg, j));
      CountNone(s.threads, Stores(cfg, j));
      CountNone(s.threads, Loads(cfg, j));
    }
    ClaimsTotal(cfg, s.head);
    ClaimsTotal(cfg, s.tail);
    StoredBelow(cfg, s, cfg.size);
    assert s.states[..cfg.size] == s.states;
    forall i | 0 <= i < |s.threads| ensures Carried(s.threads[i]) == multiset{} {
      assert !Unfinished(s, i);
    }
    GatherEmpty(s.threads, Carried);
  }
}
