/** The AtomicQueue wrapper of include/queue/Queue.h (m_isSPSC == false), whose slots are single atomic
    words that hold an element or NIL: one CAS stores, one exchange takes. Every transition is one or
    three transitions of the queue with separate slot states, so that queue's properties carry over. */
module NilQueue {
  import opened Counting
  import opened Words
  import opened AtomicQueue
  import opened AtomicQueueProofs
  import T = AtomicQueueTheorems

  datatype Slot<T> = Nil | Element(elem: T)

  datatype NilState<T> = NilState(
    head: nat,
    tail: nat,
    slots: seq<Slot<T>>,
    threads: seq<Thread<T>>,
    accepted: multiset<T>,
    returned: multiset<T>)

  ghost predicate Sized<T>(cfg: Config, n: NilState<T>) {
    cfg.Valid() && |n.slots| == cfg.size
  }

  /** Threads of this queue never own a slot between two operations. */
  ghost predicate Plain<T>(t: Thread<T>) {
    t.Idle? || t.PushRead? || t.PushTested? || t.PushWait? || t.PopRead? || t.PopTested? || t.PopWait?
  }

  function NilInit<T>(cfg: Config, n: nat): NilState<T>
    requires cfg.Valid()
  {
    NilState(0, 0, seq(cfg.size, _ => Nil), seq(n, _ => Idle), multiset{}, multiset{})
  }

  function RunNil<T>(cfg: Config, n: NilState<T>, i: nat): NilState<T>
    requires Sized(cfg, n) && i < |n.threads|
  {
    match n.threads[i]
    case PushRead(e, h) =>
      if SignedDiff(Word(h), Word(n.tail)) >= cfg.size then n.(threads := n.threads[i := Idle])
      else n.(threads := n.threads[i := PushTested(e, h)])
    case PushTested(e, h) =>
      if Word(h) == Word(n.head) then
        n.(head := n.head + 1, threads := n.threads[i := PushWait(e, n.head)], accepted := n.accepted + multiset{e})
      else n.(threads := n.threads[i := PushRead(e, n.head)])
    case PushWait(e, k) =>
      // compare_exchange_strong(NIL, element)
      if n.slots[cfg.Slot(k)] == Nil
        then n.(slots := n.slots[cfg.Slot(k) := Element(e)], threads := n.threads[i := Idle])
      else n
    case PopRead(t) =>
      if SignedDiff(Word(n.head), Word(t)) <= 0 then n.(threads := n.threads[i := Idle])
      else n.(threads := n.threads[i := PopTested(t)])
    case PopTested(t) =>
      if Word(t) == Word(n.tail) then n.(tail := n.tail + 1, threads := n.threads[i := PopWait(n.tail)])
      else n.(threads := n.threads[i := PopRead(n.tail)])
    case PopWait(k) =>
      // exchange(NIL)
      if n.slots[cfg.Slot(k)] == Nil then n
      else n.(slots := n.slots[cfg.Slot(k) := Nil], threads := n.threads[i := Idle],
              returned := n.returned + multiset{n.slots[cfg.Slot(k)].elem})
    case _ => n
  }

  function NilStep<T>(cfg: Config, n: NilState<T>, i: nat, a: Action<T>): NilState<T>
    requires Sized(cfg, n)
  {
    if i >= |n.threads| then n
    else if n.threads[i] != Idle then RunNil(cfg, n, i)
    else match a
      case BeginPush(e) => n.(threads := n.threads[i := PushRead(e, n.head)])
      case BeginPop => n.(threads := n.threads[i := PopRead(n.tail)])
      case Run => n
  }

  // ---------------------------------------------------------------- simulation

  /** The two queues look the same: NIL slots are EMPTY, the others STORED with that element. */
  ghost predicate Simulates<T>(cfg: Config, n: NilState<T>, s: State<T>) {
    && Shaped(cfg, s) && Sized(cfg, n)
    && s.head == n.head && s.tail == n.tail && s.threads == n.threads
    && s.accepted == n.accepted && s.returned == n.returned
    && (forall i | 0 <= i < |n.threads| :: Plain(n.threads[i]))
    && (forall j | 0 <= j < cfg.size :: SameSlot(n.slots[j], s.states[j], s.elems[j]))
  }

  ghost predicate SameSlot<T>(slot: Slot<T>, state: SlotState, elem: T) {
    match slot
    case Nil => state == EMPTY
    case Element(e) => state == STORED && elem == e
  }

  lemma UpdateTwice<U>(s: seq<U>, i: nat, a: U, b: U)
    requires i < |s|
    ensures s[i := a][i := b] == s[i := b]
  {
  }

  /** Operations of thread `i` alone, one after the other. */
  ghost predicate RunOf<T>(cfg: Config, i: nat, a: Action<T>, path: seq<State<T>>) {
    && path != []
    && forall k | 0 <= k < |path| - 1 :: Shaped(cfg, path[k]) && path[k + 1] == Step(cfg, path[k], i, a)
  }

  /** `t` is `s` after the next operation of the working thread `i`. */
  ghost predicate Next<T>(cfg: Config, i: nat, s: State<T>, t: State<T>) {
    Shaped(cfg, s) && i < |s.threads| && s.threads[i] != Idle && t == RunThread(cfg, s, i)
  }

  lemma ThreeInARow<T>(cfg: Config, i: nat, a: Action<T>, s: State<T>, s1: State<T>, s2: State<T>, s3: State<T>)
    requires Next(cfg, i, s, s1) && Next(cfg, i, s1, s2) && Next(cfg, i, s2, s3)
    ensures RunOf(cfg, i, a, [s, s1, s2, s3])
  {
    assert s1 == Step(cfg, s, i, a) && s2 == Step(cfg, s1, i, a) && s3 == Step(cfg, s2, i, a);
  }

  /** One step of a pusher on its slot, with its outcome spelled out. */
  lemma PusherStep<T>(cfg: Config, s: State<T>, s': State<T>, i: nat, e: T, k: nat)
    requires Inv(cfg, s) && i < |s.threads| && s' == RunThread(cfg, s, i)
    requires s.threads[i] == PushWait(e, k) || s.threads[i] == PushOwn(e, k) || s.threads[i] == PushWritten(e, k)
    requires s.threads[i].PushWait? ==> s.states[cfg.Slot(k)] == EMPTY
    ensures Inv(cfg, s')
    ensures s.threads[i] == PushWait(e, k) ==>
              s' == s.(states := s.states[cfg.Slot(k) := STORING], threads := s.threads[i := PushOwn(e, k)])
    ensures s.threads[i] == PushOwn(e, k) ==>
              s' == s.(elems := s.elems[cfg.Slot(k) := e], threads := s.threads[i := PushWritten(e, k)])
    ensures s.threads[i] == PushWritten(e, k) ==>
              s' == s.(states := s.states[cfg.Slot(k) := STORED], threads := s.threads[i := Idle])
  {
    StoringKeepsInv(cfg, s, i);
  }

  lemma PopperStep<T>(cfg: Config, s: State<T>, s': State<T>, i: nat, k: nat, e: T)
    requires Inv(cfg, s) && i < |s.threads| && s' == RunThread(cfg, s, i)
    requires s.threads[i] == PopWait(k) || s.threads[i] == PopOwn(k, e) || s.threads[i] == PopMoved(k, e)
    requires s.threads[i].PopWait? ==> s.states[cfg.Slot(k)] == STORED
    ensures Inv(cfg, s')
    ensures s.threads[i] == PopWait(k) ==>
              s' == s.(states := s.states[cfg.Slot(k) := LOADING],
                threads := s.threads[i := PopOwn(k, s.elems[cfg.Slot(k)])])
    ensures s.threads[i] == PopOwn(k, e) ==> s' == s.(threads := s.threads[i := PopMoved(k, s.elems[cfg.Slot(k)])])
    ensures s.threads[i] == PopMoved(k, e) ==>
              s' == s.(states := s.states[cfg.Slot(k) := EMPTY], threads := s.threads[i := Idle],
                returned := s.returned + multiset{e})
  {
    LoadingKeepsInv(cfg, s, i);
  }

  /** Three steps of a pusher: take the slot, write, publish. */
  lemma ThreeStores<T>(cfg: Config, s: State<T>, i: nat, e: T, k: nat)
    returns (s1: State<T>, s2: State<T>, s': State<T>)
    requires Inv(cfg, s) && i < |s.threads| && s.threads[i] == PushWait(e, k) && s.states[cfg.Slot(k)] == EMPTY
    ensures Next(cfg, i, s, s1) && Next(cfg, i, s1, s2) && Next(cfg, i, s2, s') && Inv(cfg, s')
    ensures s' == s.(states := s.states[cfg.Slot(k) := STORED], elems := s.elems[cfg.Slot(k) := e],
            threads := s.threads[i := Idle])
  {
    var j := cfg.Slot(k);
    s1 := RunThread(cfg, s, i);
    PusherStep(cfg, s, s1, i, e, k);
    s2 := RunThread(cfg, s1, i);
    PusherStep(cfg, s1, s2, i, e, k);
    s' := RunThread(cfg, s2, i);
    PusherStep(cfg, s2, s', i, e, k);
    UpdateTwice(s.states, j, STORING, STORED);
    UpdateTwice(s.threads, i, PushOwn(e, k), PushWritten(e, k));
    UpdateTwice(s.threads, i, PushWritten(e, k), Idle);
  }

  /** Three steps of a popper: take the slot, move out, clear. */
  lemma ThreeLoads<T>(cfg: Config, s: State<T>, i: nat, k: nat)
    returns (s1: State<T>, s2: State<T>, s': State<T>)
    requires Inv(cfg, s) && i < |s.threads| && s.threads[i] == PopWait(k) && s.states[cfg.Slot(k)] == STORED
    ensures Next(cfg, i, s, s1) && Next(cfg, i, s1, s2) && Next(cfg, i, s2, s') && Inv(cfg, s')
    ensures s' == s.(states := s.states[cfg.Slot(k) := EMPTY], threads := s.threads[i := Idle],
                     returned := s.returned + multiset{s.elems[cfg.Slot(k)]})
  {
    var j, e := cfg.Slot(k), s.elems[cfg.Slot(k)];
    s1 := RunThread(cfg, s, i);
    PopperStep(cfg, s, s1, i, k, e);
    s2 := RunThread(cfg, s1, i);
    PopperStep(cfg, s1, s2, i, k, e);
    s' := RunThread(cfg, s2, i);
    PopperStep(cfg, s2, s', i, k, e);
    UpdateTwice(s.states, j, LOADING, EMPTY);
    UpdateTwice(s.threads, i, PopOwn(k, e), PopMoved(k, e));
    UpdateTwice(s.threads, i, PopMoved(k, e), Idle);
  }

  /** Both queues change slot `j` alike and thread `i` becomes idle. */
  lemma SlotChanged<T>(cfg: Config, n: NilState<T>, s: State<T>, n': NilState<T>, s': State<T>, i: nat, j: nat)
    requires Simulates(cfg, n, s) && i < |n.threads| && j < cfg.size
    requires |n'.slots| == |s'.states| == |s'.elems| == cfg.size
    requires n'.threads == s'.threads == n.threads[i := Idle]
    requires n'.head == n.head == s'.head && n'.tail == n.tail == s'.tail
    requires n'.accepted == s'.accepted && n'.returned == s'.returned
    requires SameSlot(n'.slots[j], s'.states[j], s'.elems[j])
    requires forall l | 0 <= l < cfg.size && l != j ::
               n'.slots[l] == n.slots[l] && s'.states[l] == s.states[l] && s'.elems[l] == s.elems[l]
    ensures Simulates(cfg, n', s')
  {
  }

  /** Loading, testing and claiming do the same to both. */
  lemma CountersAlike<T>(cfg: Config, n: NilState<T>, s: State<T>, i: nat, a: Action<T>)
    requires Simulates(cfg, n, s) && i < |n.threads| && !n.threads[i].PushWait? && !n.threads[i].PopWait?
    ensures var n', s' := NilStep(cfg, n, i, a), Step(cfg, s, i, a);
            && n'.threads == s'.threads && n'.head == s'.head && n'.tail == s'.tail
            && n'.accepted == s'.accepted && n'.returned == s'.returned
            && n'.slots == n.slots && s'.states == s.states && s'.elems == s.elems
            && (forall l | 0 <= l < |n'.threads| :: Plain(n'.threads[l]))
  {
    assert Plain(n.threads[i]);
  }

  /** The operations `path` of thread `i` of the other queue, from `s` on, do what took this one from `n`
      to `n'`: three of them when a slot was filled or emptied, else one, or none when nothing changed.
      The other queue's invariant is kept. */
  ghost predicate Matches<T>(cfg: Config, n: NilState<T>, n': NilState<T>, s: State<T>, i: nat, a: Action<T>,
      path: seq<State<T>>) {
    && RunOf(cfg, i, a, path) && path[0] == s
    && Simulates(cfg, n', path[|path| - 1]) && Inv(cfg, path[|path| - 1])
    && (if n'.slots != n.slots then |path| == 4 else |path| == 2 || (|path| == 1 && n' == n))
  }

  /** Every transition of this queue is matched by the other one. */
  lemma StepSimulated<T>(cfg: Config, n: NilState<T>, s: State<T>, i: nat, a: Action<T>) returns (path: seq<State<T>>)
    requires Simulates(cfg, n, s) && Inv(cfg, s) && Timely(s)
    ensures Matches(cfg, n, NilStep(cfg, n, i, a), s, i, a, path)
  {
    if i >= |n.threads| {
      path := [s];
    } else if n.threads[i].PushWait? || n.threads[i].PopWait? {
      path := SlotStepSimulated(cfg, n, s, i, a);
    } else {
      path := CounterStepSimulated(cfg, n, s, i, a, NilStep(cfg, n, i, a));
    }
  }

  lemma CounterStepSimulated<T>(cfg: Config, n: NilState<T>, s: State<T>, i: nat, a: Action<T>, n': NilState<T>)
    returns (path: seq<State<T>>)
    requires Simulates(cfg, n, s) && Inv(cfg, s) && Timely(s) && n' == NilStep(cfg, n, i, a)
    requires i < |n.threads| && !n.threads[i].PushWait? && !n.threads[i].PopWait?
    ensures Matches(cfg, n, n', s, i, a, path)
  {
    var s' := Step(cfg, s, i, a);
    StepKeepsInv(cfg, s, i, a);
    CountersAlike(cfg, n, s, i, a);
    path := [s, s'];
  }

  lemma SlotStepSimulated<T>(cfg: Config, n: NilState<T>, s: State<T>, i: nat, a: Action<T>)
    returns (path: seq<State<T>>)
    requires Simulates(cfg, n, s) && Inv(cfg, s) && i < |n.threads| && (n.threads[i].PushWait? || n.threads[i].PopWait?)
    ensures Matches(cfg, n, RunNil(cfg, n, i), s, i, a, path)
  {
    path := [s];
    var k := n.threads[i].ticket;
    if n.threads[i].PushWait? {
      if n.slots[cfg.Slot(k)] == Nil {
        path := StoreSimulated(cfg, n, s, i, a, n.threads[i].elem, k, RunNil(cfg, n, i));
      }
    } else if n.slots[cfg.Slot(k)] != Nil {
      path := TakeSimulated(cfg, n, s, i, a, n.slots[cfg.Slot(k)].elem, k, RunNil(cfg, n, i));
    }
  }

  lemma StoreSimulated<T>(cfg: Config, n: NilState<T>, s: State<T>, i: nat, a: Action<T>, e: T, k: nat, n': NilState<T>)
    returns (path: seq<State<T>>)
    requires Simulates(cfg, n, s) && Inv(cfg, s) && i < |n.threads|
    requires n.threads[i] == PushWait(e, k) && n.slots[cfg.Slot(k)] == Nil
    requires n' == n.(slots := n.slots[cfg.Slot(k) := Element(e)], threads := n.threads[i := Idle])
    ensures Matches(cfg, n, n', s, i, a, path)
  {
    var j := cfg.Slot(k);
    assert SameSlot(n.slots[j], s.states[j], s.elems[j]);
    var s1, s2, s' := ThreeStores(cfg, s, i, e, k);
    ThreeInARow(cfg, i, a, s, s1, s2, s');
    path := [s, s1, s2, s'];
    Stored(cfg, n, s, n', s', i, j, e);
  }

  lemma TakeSimulated<T>(cfg: Config, n: NilState<T>, s: State<T>, i: nat, a: Action<T>, e: T, k: nat, n': NilState<T>)
    returns (path: seq<State<T>>)
    requires Simulates(cfg, n, s) && Inv(cfg, s) && i < |n.threads|
    requires n.threads[i] == PopWait(k) && n.slots[cfg.Slot(k)] == Element(e)
    requires n' == n.(slots := n.slots[cfg.Slot(k) := Nil], threads := n.threads[i := Idle],
            returned := n.returned + multiset{e})
    ensures Matches(cfg, n, n', s, i, a, path)
  {
    var j := cfg.Slot(k);
    assert SameSlot(n.slots[j], s.states[j], s.elems[j]);
    var s1, s2, s' := ThreeLoads(cfg, s, i, k);
    ThreeInARow(cfg, i, a, s, s1, s2, s');
    path := [s, s1, s2, s'];
    Taken(cfg, n, s, n', s', i, j, e);
  }

  lemma Stored<T>(cfg: Config, n: NilState<T>, s: State<T>, n': NilState<T>, s': State<T>, i: nat, j: nat, e: T)
    requires Simulates(cfg, n, s) && i < |n.threads| && j < cfg.size
    requires n' == n.(slots := n.slots[j := Element(e)], threads := n.threads[i := Idle])
    requires s' == s.(states := s.states[j := STORED], elems := s.elems[j := e], threads := s.threads[i := Idle])
    ensures Simulates(cfg, n', s')
  {
    SlotChanged(cfg, n, s, n', s', i, j);
  }

  lemma Taken<T>(cfg: Config, n: NilState<T>, s: State<T>, n': NilState<T>, s': State<T>, i: nat, j: nat, e: T)
    requires Simulates(cfg, n, s) && i < |n.threads| && j < cfg.size
    requires n' == n.(slots := n.slots[j := Nil], threads := n.threads[i := Idle], returned := n.returned + multiset{e})
    requires s' == s.(states := s.states[j := EMPTY], threads := s.threads[i := Idle],
            returned := s.returned + multiset{e})
    ensures Simulates(cfg, n', s')
  {
    SlotChanged(cfg, n, s, n', s', i, j);
  }

  // ---------------------------------------------------------------- every interleaving

  ghost predicate NilTimely<T>(n: NilState<T>) {
    forall i | 0 <= i < |n.threads| :: match n.threads[i]
      case PushRead(_, h) => n.head - h < TWO31
      case PushTested(_, h) => n.head - h < TWO31
      case PopRead(k) => n.head - k < TWO31
      case PopTested(k) => n.head - k < TWO31
      case _ => true
  }

  ghost predicate NilTransition<T(!new)>(cfg: Config, n: NilState<T>, n': NilState<T>)
    requires Sized(cfg, n)
  {
    exists i: nat, a: Action<T> :: n' == NilStep(cfg, n, i, a)
  }

  ghost predicate NilTrace<T(!new)>(cfg: Config, run: seq<NilState<T>>) {
    && |run| > 0 && cfg.Valid() && (exists threads: nat :: run[0] == NilInit(cfg, threads))
    && (forall k | 0 <= k < |run| :: Sized(cfg, run[k]) && NilTimely(run[k]))
    && (forall k | 0 <= k < |run| - 1 :: NilTransition(cfg, run[k], run[k + 1]))
  }

  lemma {:induction false} TraceSimulated<T(!new)>(cfg: Config, run: seq<NilState<T>>, k: nat, elem: T)
    returns (s: State<T>)
    requires NilTrace(cfg, run) && k < |run|
    ensures Simulates(cfg, run[k], s) && Inv(cfg, s)
  {
    if k == 0 {
      var threads: nat :| run[0] == NilInit(cfg, threads);
      var elems := seq(cfg.size, _ => elem);
      s := Init(cfg, elems, threads);
      InitHasInv(cfg, elems, threads);
    } else {
      var t := TraceSimulated(cfg, run, k - 1, elem);
      assert NilTransition(cfg, run[k - 1], run[k - 1 + 1]);
      var i: nat, a: Action<T> :| run[k] == NilStep(cfg, run[k - 1], i, a);
      assert NilTimely(run[k - 1]);
      var path := StepSimulated(cfg, run[k - 1], t, i, a);
      s := path[|path| - 1];
    }
  }

  ghost function Held<T>(slot: Slot<T>): multiset<T> {
    if slot.Nil? then multiset{} else multiset{slot.elem}
  }

  lemma {:induction false} SameContents<T>(slots: seq<Slot<T>>, pairs: seq<(SlotState, T)>)
    requires |slots| == |pairs| && forall j | 0 <= j < |slots| :: SameSlot(slots[j], pairs[j].0, pairs[j].1)
    ensures Gather(slots, Held) == Gather(pairs, Content)
  {
    if slots != [] {
      SameContents(slots[1..], pairs[1..]);
    }
  }

  /** In every interleaving: at most `size` tickets are outstanding, and what was accepted is what was
      returned, what pushers still carry and what the slots hold. */
  lemma WindowAndConservation<T(!new)>(cfg: Config, run: seq<NilState<T>>, k: nat, elem: T)
    requires NilTrace(cfg, run) && k < |run|
    ensures run[k].tail <= run[k].head <= run[k].tail + cfg.size
    ensures run[k].accepted == run[k].returned + Gather(run[k].threads, Carried) + Gather(run[k].slots, Held)
  {
    var s := TraceSimulated(cfg, run, k, elem);
    SameContents(run[k].slots, Slots(s));
  }

  /** A claimed ticket whose slot operation would succeed now. */
  ghost predicate Ready<T>(cfg: Config, n: NilState<T>, i: nat)
    requires Sized(cfg, n) && i < |n.threads|
  {
    match n.threads[i]
    case PushWait(_, k) => n.slots[cfg.Slot(k)] == Nil
    case PopWait(k) => n.slots[cfg.Slot(k)] != Nil
    case _ => false
  }

  /** No interleaving is stuck: while a claimed ticket is unfinished, some claimed ticket's slot
      operation succeeds. */
  lemma NeverStuck<T(!new)>(cfg: Config, run: seq<NilState<T>>, k: nat, i: nat, elem: T) returns (l: nat)
    requires NilTrace(cfg, run) && k < |run| && i < |run[k].threads|
    requires run[k].threads[i].PushWait? || run[k].threads[i].PopWait?
    ensures l < |run[k].threads| && Ready(cfg, run[k], l)
    ensures cfg.Slot(run[k].threads[l].ticket) == cfg.Slot(run[k].threads[i].ticket)
  {
    var s := TraceSimulated(cfg, run, k, elem);
    l := T.NotStuckAt(cfg, s, i);
    assert Plain(run[k].threads[l]);
    var j := cfg.Slot(s.threads[l].ticket);
    assert SameSlot(run[k].slots[j], s.states[j], s.elems[j]);
  }
}
