/** The bounded lock-free queue of include/queue/Queue.h with any number of producers and consumers
    that call `try_push` and `try_pop` (the AtomicQueue2 wrapper, m_isSPSC == false).

    One transition is one atomic operation of one thread; every atomic operation is sequentially
    consistent. Counts are kept unbounded so that theorems can talk about them, but every test and
    every slot index uses only their 32-bit words, as the code does. */
module AtomicQueue {
  import opened Counting
  import opened Words

  datatype SlotState = EMPTY | STORING | STORED | LOADING

  /** Where a thread stands inside `try_push` or `try_pop`. */
  datatype Thread<T> =
    | Idle
    | PushRead(elem: T, head: nat)      // m_head loaded, or refreshed by a failed CAS
    | PushTested(elem: T, head: nat)    // room seen, CAS on m_head pending
    | PushWait(elem: T, ticket: nat)    // ticket claimed, CAS EMPTY -> STORING pending
    | PushOwn(elem: T, ticket: nat)     // slot owned, element not yet written
    | PushWritten(elem: T, ticket: nat) // element written, store of STORED pending
    | PopRead(tail: nat)
    | PopTested(tail: nat)
    | PopWait(ticket: nat)
    | PopOwn(ticket: nat, seen: T)      // slot owned; `seen` only records the slot's content
    | PopMoved(ticket: nat, elem: T)    // element moved out, store of EMPTY pending

  /** The compile-time shape of a queue: its size and the table of `remapIndex`. */
  datatype Config = Config(size: nat, remap: seq<nat>) {
    /** What every instantiation meets: `remap` is a permutation of the slots. */
    ghost predicate WellFormed() {
      && 1 <= size < TWO31
      && |remap| == size
      && (forall i | 0 <= i < size :: remap[i] < size)
      && (forall i, k | 0 <= i < k < size :: remap[i] != remap[k])
    }

    /** The size divides 2^32, as every power of two does. */
    ghost predicate Valid() {
      WellFormed() && TWO32 % size == 0
    }

    /** The slot of a ticket, computed from the ticket's 32-bit word. */
    function Slot(ticket: nat): (j: nat)
      requires WellFormed()
      ensures j < size
    {
      remap[Word(ticket) % size]
    }
  }

  datatype State<T> = State(
    head: nat,
    tail: nat,
    states: seq<SlotState>,
    elems: seq<T>,
    threads: seq<Thread<T>>,
    accepted: multiset<T>,  // elements of the try_push calls that claimed a ticket
    returned: multiset<T>)  // elements handed out by the try_pop calls that finished

  datatype Action<T> = BeginPush(elem: T) | BeginPop | Run

  function Init<T>(cfg: Config, elems: seq<T>, n: nat): State<T>
    requires cfg.WellFormed() && |elems| == cfg.size
  {
    State(0, 0, seq(cfg.size, _ => EMPTY), elems, seq(n, _ => Idle), multiset{}, multiset{})
  }

  ghost predicate Shaped<T>(cfg: Config, s: State<T>) {
    cfg.WellFormed() && |s.states| == |s.elems| == cfg.size
  }

  /** The next atomic operation of thread `i`, which is inside a call. A failed CAS on a slot
      leaves the state as it is: the thread spins. */
  function RunThread<T>(cfg: Config, s: State<T>, i: nat): State<T>
    requires Shaped(cfg, s) && i < |s.threads|
  {
    match s.threads[i]
    case Idle => s
    case PushRead(e, h) =>
      if SignedDiff(Word(h), Word(s.tail)) >= cfg.size then
        s.(threads := s.threads[i := Idle])                                   // return false
      else
        s.(threads := s.threads[i := PushTested(e, h)])
    case PushTested(e, h) =>
      if Word(h) == Word(s.head) then
        s.(head := s.head + 1, threads := s.threads[i := PushWait(e, s.head)],
           accepted := s.accepted + multiset{e})
      else
        s.(threads := s.threads[i := PushRead(e, s.head)])
    case PushWait(e, k) =>
      if s.states[cfg.Slot(k)] == EMPTY then
        s.(states := s.states[cfg.Slot(k) := STORING], threads := s.threads[i := PushOwn(e, k)])
      else s
    case PushOwn(e, k) =>
      s.(elems := s.elems[cfg.Slot(k) := e], threads := s.threads[i := PushWritten(e, k)])
    case PushWritten(e, k) =>
      s.(states := s.states[cfg.Slot(k) := STORED], threads := s.threads[i := Idle])  // return true
    case PopRead(t) =>
      if SignedDiff(Word(s.head), Word(t)) <= 0 then
        s.(threads := s.threads[i := Idle])                                   // return false
      else
        s.(threads := s.threads[i := PopTested(t)])
    case PopTested(t) =>
      if Word(t) == Word(s.tail) then
        s.(tail := s.tail + 1, threads := s.threads[i := PopWait(s.tail)])
      else
        s.(threads := s.threads[i := PopRead(s.tail)])
    case PopWait(k) =>
      var j := cfg.Slot(k);
      if s.states[j] == STORED then
        s.(states := s.states[j := LOADING], threads := s.threads[i := PopOwn(k, s.elems[j])])
      else s
    case PopOwn(k, _) =>
      s.(threads := s.threads[i := PopMoved(k, s.elems[cfg.Slot(k)])])
    case PopMoved(k, e) =>
      s.(states := s.states[cfg.Slot(k) := EMPTY], threads := s.threads[i := Idle],
         returned := s.returned + multiset{e})                                // return true
  }

  /** One transition of thread `i`: start a call by loading the counter, or run on inside one. */
  function Step<T>(cfg: Config, s: State<T>, i: nat, a: Action<T>): State<T>
    requires Shaped(cfg, s)
  {
    if i >= |s.threads| then s
    else if s.threads[i] != Idle then RunThread(cfg, s, i)
    else match a
      case BeginPush(e) => s.(threads := s.threads[i := PushRead(e, s.head)])
      case BeginPop => s.(threads := s.threads[i := PopRead(s.tail)])
      case Run => s
  }

  /** Thread `i` is inside a call and its next operation is not a failed CAS on a slot. */
  ghost predicate Enabled<T>(cfg: Config, s: State<T>, i: nat)
    requires Shaped(cfg, s) && i < |s.threads|
  {
    match s.threads[i]
    case Idle => false
    case PushWait(_, k) => s.states[cfg.Slot(k)] == EMPTY
    case PopWait(k) => s.states[cfg.Slot(k)] == STORED
    case _ => true
  }

  /** No counter value a thread still holds is 2^31 or more operations old. */
  ghost predicate TimelyThread<T>(s: State<T>, t: Thread<T>) {
    match t
    case PushRead(_, h) => s.head - h < TWO31
    case PushTested(_, h) => s.head - h < TWO31
    case PopRead(k) => s.head - k < TWO31
    case PopTested(k) => s.head - k < TWO31
    case _ => true
  }

  ghost predicate Timely<T>(s: State<T>) {
    forall i | 0 <= i < |s.threads| :: TimelyThread(s, s.threads[i])
  }

  /** An interleaving of timely steps, for a queue of any size. */
  ghost predicate Interleaving<T(!new)>(cfg: Config, run: seq<State<T>>) {
    && |run| > 0 && cfg.WellFormed()
    && (exists elems: seq<T>, n: nat :: |elems| == cfg.size && run[0] == Init(cfg, elems, n))
    && (forall k | 0 <= k < |run| :: Shaped(cfg, run[k]) && Timely(run[k]))
    && (forall k | 0 <= k < |run| - 1 :: Transition(cfg, run[k], run[k + 1]))
  }

  /** The same for a size that divides 2^32. */
  ghost predicate Trace<T(!new)>(cfg: Config, run: seq<State<T>>) {
    cfg.Valid() && Interleaving(cfg, run)
  }

  ghost predicate Transition<T(!new)>(cfg: Config, s: State<T>, s': State<T>)
    requires Shaped(cfg, s)
  {
    exists i: nat, a: Action<T> :: s' == Step(cfg, s, i, a)
  }

  // ---------------------------------------------------------------- the invariant

  function WaitsToPush<T>(cfg: Config, j: nat): Thread<T> -> bool
    requires cfg.WellFormed()
  {
    (t: Thread<T>) => t.PushWait? && cfg.Slot(t.ticket) == j
  }

  function WaitsToPop<T>(cfg: Config, j: nat): Thread<T> -> bool
    requires cfg.WellFormed()
  {
    (t: Thread<T>) => t.PopWait? && cfg.Slot(t.ticket) == j
  }

  function Stores<T>(cfg: Config, j: nat): Thread<T> -> bool
    requires cfg.WellFormed()
  {
    (t: Thread<T>) => (t.PushOwn? || t.PushWritten?) && cfg.Slot(t.ticket) == j
  }

  function Loads<T>(cfg: Config, j: nat): Thread<T> -> bool
    requires cfg.WellFormed()
  {
    (t: Thread<T>) => (t.PopOwn? || t.PopMoved?) && cfg.Slot(t.ticket) == j
  }

  /** How many of the first `n` tickets belong to slot `j`. */
  ghost function Claims(cfg: Config, n: nat, j: nat): nat
    requires cfg.WellFormed()
  {
    if n == 0 then 0 else Claims(cfg, n - 1, j) + Bit(cfg.Slot(n - 1) == j)
  }

  /** What a thread carries of the elements in transit. */
  ghost function Carried<T>(t: Thread<T>): multiset<T> {
    match t
    case PushWait(e, _) => multiset{e}
    case PushOwn(e, _) => multiset{e}
    case PushWritten(e, _) => multiset{e}
    case PopOwn(_, e) => multiset{e}
    case PopMoved(_, e) => multiset{e}
    case _ => multiset{}
  }

  ghost function Content<T>(slot: (SlotState, T)): multiset<T> {
    if slot.0 == STORED then multiset{slot.1} else multiset{}
  }

  ghost function Slots<T>(s: State<T>): seq<(SlotState, T)>
    requires |s.states| == |s.elems|
  {
    seq(|s.states|, j requires 0 <= j < |s.states| => (s.states[j], s.elems[j]))
  }

  ghost predicate Window<T>(cfg: Config, s: State<T>) {
    s.tail <= s.head <= s.tail + cfg.size
  }

  /** What each thread's position promises about the shared state. */
  ghost predicate Consistent<T>(cfg: Config, s: State<T>, t: Thread<T>)
    requires Shaped(cfg, s)
  {
    match t
    case Idle => true
    case PushRead(_, h) => h <= s.head
    case PushTested(_, h) => h <= s.head && h < s.tail + cfg.size
    case PushWait(_, k) => k < s.head
    case PushOwn(_, k) => k < s.head && s.states[cfg.Slot(k)] == STORING
    case PushWritten(e, k) => k < s.head && s.states[cfg.Slot(k)] == STORING && s.elems[cfg.Slot(k)] == e
    case PopRead(k) => k <= s.tail
    case PopTested(k) => k <= s.tail && k < s.head
    case PopWait(k) => k < s.tail
    case PopOwn(k, e) => k < s.tail && s.states[cfg.Slot(k)] == LOADING && s.elems[cfg.Slot(k)] == e
    case PopMoved(k, _) => k < s.tail && s.states[cfg.Slot(k)] == LOADING
  }

  /** The books of slot `j`: claimed pushes minus claimed pops, split by where they stand. */
  ghost predicate Balanced<T>(cfg: Config, s: State<T>, j: nat)
    requires Shaped(cfg, s) && j < cfg.size
  {
    && Claims(cfg, s.head, j) + Count(s.threads, WaitsToPop(cfg, j))
       == Claims(cfg, s.tail, j) + Count(s.threads, WaitsToPush(cfg, j))
          + Bit(s.states[j] == STORING || s.states[j] == STORED)
    && Count(s.threads, Stores(cfg, j)) == Bit(s.states[j] == STORING)
    && Count(s.threads, Loads(cfg, j)) == Bit(s.states[j] == LOADING)
  }

  ghost predicate Conserved<T>(cfg: Config, s: State<T>)
    requires Shaped(cfg, s)
  {
    s.accepted == s.returned + Gather(s.threads, Carried) + Gather(Slots(s), Content)
  }

  ghost predicate Inv<T>(cfg: Config, s: State<T>) {
    && cfg.Valid() && Shaped(cfg, s)
    && Window(cfg, s)
    && (forall i | 0 <= i < |s.threads| :: Consistent(cfg, s, s.threads[i]))
    && (forall j | 0 <= j < cfg.size :: Balanced(cfg, s, j))
    && Conserved(cfg, s)
  }
}
