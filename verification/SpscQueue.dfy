/** The single-producer single-consumer branch of include/queue/Queue.h (m_isSPSC == true): plain
    loads and stores, no CAS. Two threads, one atomic operation per transition. The queue is a
    bounded FIFO although both counters move before the element does. */
module SpscQueue {
  import opened Words
  import opened AtomicQueue
  import opened AtomicQueueProofs

  datatype Producer<T> =
    | PIdle
    | PLoaded(elem: T, head: nat)   // own m_head loaded
    | PRoom(elem: T, head: nat)     // room seen, store to m_head pending
    | PWait(elem: T, ticket: nat)   // waiting for the slot to be EMPTY
    | PWrite(elem: T, ticket: nat)  // EMPTY seen, element not yet written
    | PStore(elem: T, ticket: nat)  // element written, store of STORED pending

  datatype Consumer<T> =
    | CIdle
    | CLoaded(tail: nat)
    | CReady(tail: nat)
    | CWait(ticket: nat)
    | CMove(ticket: nat)            // STORED seen, element not yet moved
    | CClear(ticket: nat, elem: T)  // element moved, store of EMPTY pending

  datatype Spsc<T> = Spsc(
    head: nat,
    tail: nat,
    stored: seq<bool>,  // slot state is STORED rather than EMPTY
    elems: seq<T>,
    producer: Producer<T>,
    consumer: Consumer<T>,
    pushed: seq<T>,     // elements in the order their tickets were claimed
    popped: seq<T>)     // elements in the order they were moved out

  datatype Mover<T> = Produce(elem: T) | Consume

  /** What one transition does to the abstract queue. */
  datatype Event<T> = Enqueue(elem: T) | Dequeue(elem: T) | RefuseFull | RefuseEmpty | Silent

  function SpscInit<T>(cfg: Config, elems: seq<T>): Spsc<T>
    requires cfg.Valid() && |elems| == cfg.size
  {
    Spsc(0, 0, seq(cfg.size, _ => false), elems, PIdle, CIdle, [], [])
  }

  ghost predicate Sized<T>(cfg: Config, s: Spsc<T>) {
    cfg.Valid() && |s.stored| == |s.elems| == cfg.size
  }

  /** One operation of the producer; an idle producer starts `try_push(next)`. */
  function RunProducer<T>(cfg: Config, s: Spsc<T>, next: T): (r: (Spsc<T>, Event<T>))
    requires Sized(cfg, s)
  {
    match s.producer
    case PIdle => (s.(producer := PLoaded(next, s.head)), Silent)
    case PLoaded(e, h) =>
      if SignedDiff(Word(h), Word(s.tail)) >= cfg.size then (s.(producer := PIdle), RefuseFull)
      else (s.(producer := PRoom(e, h)), Silent)
    case PRoom(e, h) => (s.(head := h + 1, producer := PWait(e, h), pushed := s.pushed + [e]), Silent)
    case PWait(e, k) => (if s.stored[cfg.Slot(k)] then s else s.(producer := PWrite(e, k)), Silent)
    case PWrite(e, k) => (s.(elems := s.elems[cfg.Slot(k) := e], producer := PStore(e, k)), Silent)
    case PStore(e, k) => (s.(stored := s.stored[cfg.Slot(k) := true], producer := PIdle), Enqueue(e))
  }

  function RunConsumer<T>(cfg: Config, s: Spsc<T>): (r: (Spsc<T>, Event<T>))
    requires Sized(cfg, s)
  {
    match s.consumer
    case CIdle => (s.(consumer := CLoaded(s.tail)), Silent)
    case CLoaded(t) =>
      if SignedDiff(Word(s.head), Word(t)) <= 0 then (s.(consumer := CIdle), RefuseEmpty)
      else (s.(consumer := CReady(t)), Silent)
    case CReady(t) => (s.(tail := t + 1, consumer := CWait(t)), Silent)
    case CWait(k) => (if s.stored[cfg.Slot(k)] then s.(consumer := CMove(k)) else s, Silent)
    case CMove(k) =>
      var e := s.elems[cfg.Slot(k)];
      (s.(popped := s.popped + [e], consumer := CClear(k, e)), Dequeue(e))
    case CClear(k, e) => (s.(stored := s.stored[cfg.Slot(k) := false], consumer := CIdle), Silent)
  }

  function Move<T>(cfg: Config, s: Spsc<T>, m: Mover<T>): (r: (Spsc<T>, Event<T>))
    requires Sized(cfg, s)
  {
    match m
    case Produce(e) => RunProducer(cfg, s, e)
    case Consume => RunConsumer(cfg, s)
  }

  // ---------------------------------------------------------------- the invariant

  ghost function Published<T>(s: Spsc<T>): int {
    s.head - (if s.producer.PWait? || s.producer.PWrite? || s.producer.PStore? then 1 else 0)
  }

  ghost function Cleared<T>(s: Spsc<T>): int {
    s.tail - (if s.consumer.CWait? || s.consumer.CMove? || s.consumer.CClear? then 1 else 0)
  }

  ghost predicate Occupied<T>(cfg: Config, s: Spsc<T>, j: nat)
    requires cfg.Valid()
  {
    exists k: nat :: Cleared(s) <= k < Published(s) && cfg.Slot(k) == j
  }

  ghost predicate ProducerAt<T>(cfg: Config, s: Spsc<T>)
    requires Sized(cfg, s)
  {
    match s.producer
    case PIdle => true
    case PLoaded(_, h) => h == s.head
    case PRoom(_, h) => h == s.head && h < s.tail + cfg.size
    case PWait(e, k) => k == s.head - 1 && k < |s.pushed| && s.pushed[k] == e
    case PWrite(e, k) => k == s.head - 1 && k < |s.pushed| && s.pushed[k] == e && !s.stored[cfg.Slot(k)]
    case PStore(e, k) => k == s.head - 1 && k < |s.pushed| && s.pushed[k] == e && !s.stored[cfg.Slot(k)]
                         && s.elems[cfg.Slot(k)] == e
  }

  ghost predicate ConsumerAt<T>(cfg: Config, s: Spsc<T>)
    requires Sized(cfg, s)
  {
    match s.consumer
    case CIdle => true
    case CLoaded(t) => t == s.tail
    case CReady(t) => t == s.tail && t < s.head
    case CWait(k) => k == s.tail - 1
    case CMove(k) => k == s.tail - 1 && s.stored[cfg.Slot(k)]
    case CClear(k, _) => k == s.tail - 1 && s.stored[cfg.Slot(k)]
  }

  ghost predicate SpscInv<T>(cfg: Config, s: Spsc<T>) {
    && Sized(cfg, s)
    && ProducerAt(cfg, s) && ConsumerAt(cfg, s)
    && s.tail <= s.head <= s.tail + cfg.size
    && 0 <= Cleared(s) <= Published(s) <= Cleared(s) + cfg.size
    && |s.pushed| == s.head
    && |s.popped| == (if s.consumer.CWait? || s.consumer.CMove? then s.tail - 1 else s.tail)
    && s.popped == s.pushed[..|s.popped|]
    && (forall j | 0 <= j < cfg.size :: s.stored[j] <==> Occupied(cfg, s, j))
    && (forall k: nat | Cleared(s) <= k < Published(s) :: s.elems[cfg.Slot(k)] == s.pushed[k])
  }

  /** The abstract queue: elements published and not yet moved out. */
  ghost function Contents<T>(cfg: Config, s: Spsc<T>): seq<T>
    requires SpscInv(cfg, s)
  {
    if |s.popped| <= Published(s) then s.pushed[|s.popped|..Published(s)] else []
  }

  /** The bounded FIFO queue that the two-thread machine implements. */
  ghost predicate FifoStep<T>(size: nat, q: seq<T>, ev: Event<T>, q': seq<T>) {
    match ev
    case Enqueue(e) => |q| < size && q' == q + [e]
    case Dequeue(e) => q == [e] + q'
    case RefuseFull => |q| == size && q' == q
    case RefuseEmpty => q == [] && q' == q
    case Silent => q' == q
  }

  // ---------------------------------------------------------------- proofs

  lemma SpscInitHasInv<T>(cfg: Config, elems: seq<T>)
    requires cfg.Valid() && |elems| == cfg.size
    ensures SpscInv(cfg, SpscInit(cfg, elems)) && Contents(cfg, SpscInit(cfg, elems)) == []
  {
  }

  /** The slot of an outstanding ticket belongs to that ticket alone. */
  lemma SlotOwner<T>(cfg: Config, s: Spsc<T>, k: nat, l: nat)
    requires cfg.Valid() && Cleared(s) <= k <= l < Cleared(s) + cfg.size && cfg.Slot(k) == cfg.Slot(l)
    ensures k == l
  {
    if k < l {
      WindowSlots(cfg, k, l);
    }
  }

  /** Only where the producer stands changes. */
  lemma ProducerTurns<T>(cfg: Config, s: Spsc<T>, s': Spsc<T>)
    requires SpscInv(cfg, s) && s' == s.(producer := s'.producer) && ProducerAt(cfg, s')
    requires Published(s') == Published(s)
    ensures SpscInv(cfg, s') && Contents(cfg, s') == Contents(cfg, s)
  {
    assert Cleared(s') == Cleared(s);
    forall j | 0 <= j < cfg.size ensures s'.stored[j] <==> Occupied(cfg, s', j) {
      assert Occupied(cfg, s, j) <==> Occupied(cfg, s', j);
    }
  }

  lemma ProducerLocal<T>(cfg: Config, s: Spsc<T>, next: T)
    requires SpscInv(cfg, s) && (s.producer.PIdle? || s.producer.PLoaded? || s.producer.PWait?)
    ensures var r := RunProducer(cfg, s, next);
            SpscInv(cfg, r.0) && FifoStep(cfg.size, Contents(cfg, s), r.1, Contents(cfg, r.0))
  {
    if s.producer.PLoaded? {
      SignedDiffExact(s.head, s.tail);
    }
    ProducerTurns(cfg, s, RunProducer(cfg, s, next).0);
  }

  lemma ProducerClaims<T>(cfg: Config, s: Spsc<T>, next: T)
    requires SpscInv(cfg, s) && s.producer.PRoom?
    ensures var r := RunProducer(cfg, s, next);
            SpscInv(cfg, r.0) && FifoStep(cfg.size, Contents(cfg, s), r.1, Contents(cfg, r.0))
  {
    var s' := RunProducer(cfg, s, next).0;
    assert Cleared(s') == Cleared(s) && Published(s') == Published(s);
    var n, m := |s.popped|, |s.pushed|;
    assert s'.pushed[..m] == s.pushed && s'.pushed[m] == s.producer.elem;
    assert s'.pushed[..n] == s'.pushed[..m][..n];
    assert n <= Published(s) ==> s'.pushed[n..Published(s)] == s'.pushed[..m][n..Published(s)];
    forall j | 0 <= j < cfg.size ensures s'.stored[j] <==> Occupied(cfg, s', j) {
      assert Occupied(cfg, s, j) <==> Occupied(cfg, s', j);
    }
  }

  lemma ProducerWrites<T>(cfg: Config, s: Spsc<T>, next: T)
    requires SpscInv(cfg, s) && s.producer.PWrite?
    ensures var r := RunProducer(cfg, s, next);
            SpscInv(cfg, r.0) && FifoStep(cfg.size, Contents(cfg, s), r.1, Contents(cfg, r.0))
  {
    var s' := RunProducer(cfg, s, next).0;
    var k := s.producer.ticket;
    assert Cleared(s') == Cleared(s) && Published(s') == Published(s);
    forall j | 0 <= j < cfg.size ensures s'.stored[j] <==> Occupied(cfg, s', j) {
      assert Occupied(cfg, s, j) <==> Occupied(cfg, s', j);
    }
    forall l: nat | Cleared(s) <= l < Published(s) ensures cfg.Slot(l) != cfg.Slot(k) {
      assert cfg.Slot(l) == cfg.Slot(k) ==> Occupied(cfg, s, cfg.Slot(k));
    }
  }

  lemma PublishKeepsInv<T>(cfg: Config, s: Spsc<T>, s': Spsc<T>, e: T, k: nat)
    requires SpscInv(cfg, s) && s.producer == PStore(e, k)
    requires s' == s.(stored := s.stored[cfg.Slot(k) := true], producer := PIdle)
    ensures SpscInv(cfg, s') && Published(s) == k < Cleared(s) + cfg.size && Published(s') == k + 1 && s.pushed[k] == e
  {
    assert k == Published(s) && Published(s') == k + 1 && Cleared(s') == Cleared(s);
    if Published(s) == Cleared(s) + cfg.size {
      FullRing(cfg, s, k);
    }
    forall j | 0 <= j < cfg.size ensures s'.stored[j] <==> Occupied(cfg, s', j) {
      OccupiedGrows(cfg, s, s', j);
    }
  }

  lemma LastOfSlice<T>(s: seq<T>, n: nat, m: nat)
    requires n <= m < |s|
    ensures s[n..m + 1] == s[n..m] + [s[m]]
  {
  }

  lemma PublishAppends<T>(cfg: Config, s: Spsc<T>, s': Spsc<T>, e: T, k: nat)
    requires SpscInv(cfg, s) && SpscInv(cfg, s') && s'.pushed == s.pushed && s'.popped == s.popped
    requires Published(s) == k < Cleared(s) + cfg.size && Published(s') == k + 1 && k < |s.pushed| && s.pushed[k] == e
    requires |s.popped| <= k && Cleared(s) <= |s.popped|
    ensures |Contents(cfg, s)| < cfg.size && Contents(cfg, s') == Contents(cfg, s) + [e]
  {
    LastOfSlice(s.pushed, |s.popped|, k);
  }

  lemma ProducerPublishes<T>(cfg: Config, s: Spsc<T>, next: T)
    requires SpscInv(cfg, s) && s.producer.PStore?
    ensures var r := RunProducer(cfg, s, next);
            SpscInv(cfg, r.0) && FifoStep(cfg.size, Contents(cfg, s), r.1, Contents(cfg, r.0))
  {
    PublishKeepsInv(cfg, s, RunProducer(cfg, s, next).0, s.producer.elem, s.producer.ticket);
    PublishAppends(cfg, s, RunProducer(cfg, s, next).0, s.producer.elem, s.producer.ticket);
  }

  lemma OccupiedGrows<T>(cfg: Config, s: Spsc<T>, s': Spsc<T>, j: nat)
    requires cfg.Valid() && Cleared(s') == Cleared(s)
    requires 0 <= Cleared(s) <= Published(s) && Published(s') == Published(s) + 1
    ensures Occupied(cfg, s', j) <==> Occupied(cfg, s, j) || j == cfg.Slot(Published(s))
  {
    if Occupied(cfg, s, j) {
      var l: nat :| Cleared(s) <= l < Published(s) && cfg.Slot(l) == j;
      assert Cleared(s') <= l < Published(s');
    }
    if j == cfg.Slot(Published(s)) {
      var l: nat := Published(s);
      assert Cleared(s') <= l < Published(s') && cfg.Slot(l) == j;
    }
  }

  /** With every slot of the ring taken, the next ticket's slot is still occupied. */
  lemma FullRing<T>(cfg: Config, s: Spsc<T>, k: nat)
    requires SpscInv(cfg, s) && k == Published(s) == Cleared(s) + cfg.size
    ensures s.stored[cfg.Slot(k)]
  {
    WordKeepsResidue(cfg.size, k);
    WordKeepsResidue(cfg.size, k - cfg.size);
    ResidueShift(k - cfg.size, 1, cfg.size);
    assert Cleared(s) <= k - cfg.size < Published(s) && cfg.Slot(k - cfg.size) == cfg.Slot(k);
    assert Occupied(cfg, s, cfg.Slot(k));
  }

  /** A waiting consumer that finds its slot STORED finds its own element there. */
  lemma StoredIsMine<T>(cfg: Config, s: Spsc<T>)
    requires SpscInv(cfg, s) && (s.consumer.CWait? || s.consumer.CMove? || s.consumer.CClear?)
    requires s.stored[cfg.Slot(s.consumer.ticket)]
    ensures Cleared(s) == s.consumer.ticket < Published(s)
  {
    assert Occupied(cfg, s, cfg.Slot(s.consumer.ticket));
  }

  /** Only where the consumer stands changes. */
  lemma ConsumerTurns<T>(cfg: Config, s: Spsc<T>, s': Spsc<T>)
    requires SpscInv(cfg, s) && s' == s.(tail := s'.tail, consumer := s'.consumer) && ConsumerAt(cfg, s')
    requires s.tail <= s'.tail <= s.head && Cleared(s') == Cleared(s)
    requires |s.popped| == (if s'.consumer.CWait? || s'.consumer.CMove? then s'.tail - 1 else s'.tail)
    ensures SpscInv(cfg, s') && Contents(cfg, s') == Contents(cfg, s)
  {
    assert Published(s') == Published(s);
    forall j | 0 <= j < cfg.size ensures s'.stored[j] <==> Occupied(cfg, s', j) {
      assert Occupied(cfg, s, j) <==> Occupied(cfg, s', j);
    }
  }

  lemma ConsumerLocal<T>(cfg: Config, s: Spsc<T>)
    requires SpscInv(cfg, s) && !s.consumer.CMove? && !s.consumer.CClear?
    ensures var r := RunConsumer(cfg, s);
            SpscInv(cfg, r.0) && FifoStep(cfg.size, Contents(cfg, s), r.1, Contents(cfg, r.0))
  {
    if s.consumer.CLoaded? {
      SignedDiffExact(s.head, s.tail);
    }
    ConsumerTurns(cfg, s, RunConsumer(cfg, s).0);
  }

  lemma MoveKeepsInv<T>(cfg: Config, s: Spsc<T>, s': Spsc<T>, k: nat, e: T)
    requires SpscInv(cfg, s) && s.consumer == CMove(k) && e == s.elems[cfg.Slot(k)]
    requires s' == s.(popped := s.popped + [e], consumer := CClear(k, e))
    ensures SpscInv(cfg, s') && |s.popped| == k < Published(s) == Published(s') && s.pushed[k] == e
  {
    StoredIsMine(cfg, s);
    assert Cleared(s') == Cleared(s) && Published(s') == Published(s);
    forall j | 0 <= j < cfg.size ensures s'.stored[j] <==> Occupied(cfg, s', j) {
      assert Occupied(cfg, s, j) <==> Occupied(cfg, s', j);
    }
  }

  lemma FirstOfSlice<T>(s: seq<T>, n: nat, m: nat)
    requires n < m <= |s|
    ensures s[n..m] == [s[n]] + s[n + 1..m]
  {
  }

  lemma MoveTakesFirst<T>(cfg: Config, s: Spsc<T>, s': Spsc<T>, k: nat, e: T)
    requires SpscInv(cfg, s) && SpscInv(cfg, s') && s'.pushed == s.pushed && s'.popped == s.popped + [e]
    requires |s.popped| == k < Published(s) == Published(s') && s.pushed[k] == e
    ensures Contents(cfg, s) == [e] + Contents(cfg, s')
  {
    FirstOfSlice(s.pushed, k, Published(s));
  }

  lemma ConsumerMoves<T>(cfg: Config, s: Spsc<T>)
    requires SpscInv(cfg, s) && s.consumer.CMove?
    ensures var r := RunConsumer(cfg, s);
            SpscInv(cfg, r.0) && FifoStep(cfg.size, Contents(cfg, s), r.1, Contents(cfg, r.0))
  {
    var k := s.consumer.ticket;
    MoveKeepsInv(cfg, s, RunConsumer(cfg, s).0, k, s.elems[cfg.Slot(k)]);
    MoveTakesFirst(cfg, s, RunConsumer(cfg, s).0, k, s.elems[cfg.Slot(k)]);
  }

  /** The oldest ticket is done: its slot is free, the others are as they were. */
  lemma OccupiedShrinks<T>(cfg: Config, s: Spsc<T>, s': Spsc<T>, k: nat, j: nat)
    requires cfg.Valid() && Cleared(s) == k < Published(s) <= k + cfg.size
    requires Cleared(s') == k + 1 && Published(s') == Published(s)
    ensures Occupied(cfg, s', j) <==> Occupied(cfg, s, j) && j != cfg.Slot(k)
  {
    if Occupied(cfg, s', j) {
      var l: nat :| Cleared(s') <= l < Published(s') && cfg.Slot(l) == j;
      WindowSlots(cfg, k, l);
    }
    if Occupied(cfg, s, j) && j != cfg.Slot(k) {
      var l: nat :| Cleared(s) <= l < Published(s) && cfg.Slot(l) == j;
      assert Cleared(s') <= l;
    }
  }

  lemma ConsumerClears<T>(cfg: Config, s: Spsc<T>)
    requires SpscInv(cfg, s) && s.consumer.CClear?
    ensures var r := RunConsumer(cfg, s);
            SpscInv(cfg, r.0) && FifoStep(cfg.size, Contents(cfg, s), r.1, Contents(cfg, r.0))
  {
    var s' := RunConsumer(cfg, s).0;
    StoredIsMine(cfg, s);
    forall j | 0 <= j < cfg.size ensures s'.stored[j] <==> Occupied(cfg, s', j) {
      OccupiedShrinks(cfg, s, s', s.consumer.ticket, j);
    }
  }

  /** Every transition keeps the invariant and is a step of the bounded FIFO: enqueue when the
      element is published, dequeue when it is moved out, refusals only when truly full or empty. */
  lemma MoveRefinesFifo<T>(cfg: Config, s: Spsc<T>, m: Mover<T>)
    requires SpscInv(cfg, s)
    ensures var r := Move(cfg, s, m);
            SpscInv(cfg, r.0) && FifoStep(cfg.size, Contents(cfg, s), r.1, Contents(cfg, r.0))
  {
    match m
    case Produce(e) =>
      if s.producer.PRoom? {
        ProducerClaims(cfg, s, e);
      } else if s.producer.PWrite? {
        ProducerWrites(cfg, s, e);
      } else if s.producer.PStore? {
        ProducerPublishes(cfg, s, e);
      } else {
        ProducerLocal(cfg, s, e);
      }
    case Consume =>
      if s.consumer.CMove? {
        ConsumerMoves(cfg, s);
      } else if s.consumer.CClear? {
        ConsumerClears(cfg, s);
      } else {
        ConsumerLocal(cfg, s);
      }
  }

  // ---------------------------------------------------------------- whole runs

  /** The state after any schedule, together with the events seen. */
  ghost function Execute<T>(cfg: Config, s: Spsc<T>, schedule: seq<Mover<T>>): (r: (Spsc<T>, seq<Event<T>>))
    requires Sized(cfg, s)
    ensures Sized(cfg, r.0)
    decreases |schedule|
  {
    if schedule == [] then (s, [])
    else
      var (s1, ev) := Move(cfg, s, schedule[0]);
      var (s2, evs) := Execute(cfg, s1, schedule[1..]);
      (s2, [ev] + evs)
  }

  /** What a client of a bounded FIFO could have seen, starting from contents `q`. */
  ghost predicate FifoHistory<T(!new)>(size: nat, q: seq<T>, evs: seq<Event<T>>, q': seq<T>)
    decreases |evs|
  {
    if evs == [] then q' == q
    else exists q1 :: FifoStep(size, q, evs[0], q1) && FifoHistory(size, q1, evs[1..], q')
  }

  /** For one producer and one consumer, every schedule is a history of the bounded FIFO. */
  lemma {:induction false} ExecutionIsFifo<T(!new)>(cfg: Config, s: Spsc<T>, schedule: seq<Mover<T>>)
    requires SpscInv(cfg, s)
    ensures var r := Execute(cfg, s, schedule);
            SpscInv(cfg, r.0) && FifoHistory(cfg.size, Contents(cfg, s), r.1, Contents(cfg, r.0))
    decreases |schedule|
  {
    if schedule != [] {
      var (s1, ev) := Move(cfg, s, schedule[0]);
      MoveRefinesFifo(cfg, s, schedule[0]);
      ExecutionIsFifo(cfg, s1, schedule[1..]);
      var r := Execute(cfg, s, schedule);
      assert r.1[1..] == Execute(cfg, s1, schedule[1..]).1;
    }
  }

  /** From an empty queue, at every moment of every schedule the popped sequence is a prefix of the
      pushed sequence, and at most `size` published elements are waiting. */
  lemma PoppedIsPrefixOfPushed<T(!new)>(cfg: Config, elems: seq<T>, schedule: seq<Mover<T>>)
    requires cfg.Valid() && |elems| == cfg.size
    ensures var r := Execute(cfg, SpscInit(cfg, elems), schedule);
            && SpscInv(cfg, r.0) && r.0.popped <= r.0.pushed
            && FifoHistory(cfg.size, [], r.1, Contents(cfg, r.0))
            && |Contents(cfg, r.0)| <= cfg.size
  {
    SpscInitHasInv(cfg, elems);
    ExecutionIsFifo(cfg, SpscInit(cfg, elems), schedule);
  }

  // ---------------------------------------------------------------- progress

  /** A producer whose slot is taken waits for the consumer's own ticket, one round earlier. */
  lemma TakenByConsumer<T>(cfg: Config, s: Spsc<T>)
    requires SpscInv(cfg, s) && s.producer.PWait? && s.stored[cfg.Slot(s.producer.ticket)]
    ensures s.consumer.CWait? || s.consumer.CMove? || s.consumer.CClear?
    ensures cfg.Slot(s.consumer.ticket) == cfg.Slot(s.producer.ticket)
  {
    var k := s.producer.ticket;
    assert Occupied(cfg, s, cfg.Slot(k));
    var l: nat :| Cleared(s) <= l < Published(s) && cfg.Slot(l) == cfg.Slot(k);
    if k < Cleared(s) + cfg.size {
      SlotOwner(cfg, s, l, k);
    } else if Cleared(s) < l {
      WindowSlots(cfg, l, k);
    }
  }

  lemma EmptyIsUnpublished<T>(cfg: Config, s: Spsc<T>, k: nat)
    requires SpscInv(cfg, s) && Cleared(s) <= k && !s.stored[cfg.Slot(k)]
    ensures Published(s) <= k
  {
    assert k < Published(s) ==> Occupied(cfg, s, cfg.Slot(k));
  }

  /** A consumer whose slot is empty waits for the producer's ticket, which is its own. */
  lemma EmptyForConsumer<T>(cfg: Config, s: Spsc<T>)
    requires SpscInv(cfg, s) && s.consumer.CWait? && !s.stored[cfg.Slot(s.consumer.ticket)]
    ensures s.producer.PWait? || s.producer.PWrite? || s.producer.PStore?
    ensures s.producer.ticket == s.consumer.ticket
  {
    EmptyIsUnpublished(cfg, s, s.consumer.ticket);
  }

  /** Operations the consumer still has to do on its slot. */
  function ConsumerLeft<T>(c: Consumer<T>): nat {
    match c
    case CWait(_) => 3
    case CMove(_) => 2
    case CClear(_, _) => 1
    case _ => 0
  }

  lemma ConsumerGoesOn<T>(cfg: Config, s: Spsc<T>, s': Spsc<T>)
    requires SpscInv(cfg, s) && s' == Move(cfg, s, Consume).0
    requires s.producer.PWait? && s.stored[cfg.Slot(s.producer.ticket)]
    ensures SpscInv(cfg, s') && s'.producer == s.producer
    ensures ConsumerLeft(s.consumer) > 0 && ConsumerLeft(s'.consumer) == ConsumerLeft(s.consumer) - 1
    ensures s'.stored[cfg.Slot(s.producer.ticket)] <==> ConsumerLeft(s'.consumer) > 0
  {
    TakenByConsumer(cfg, s);
    MoveRefinesFifo(cfg, s, Consume);
  }

  /** Three operations of the consumer, at most, free the slot a producer waits for. */
  lemma {:induction false} WaitingProducerIsServed<T>(cfg: Config, s: Spsc<T>)
    requires SpscInv(cfg, s) && s.producer.PWait? && s.stored[cfg.Slot(s.producer.ticket)]
    ensures 1 <= ConsumerLeft(s.consumer) <= 3
    ensures var r := Execute(cfg, s, seq(ConsumerLeft(s.consumer), _ => Consume)).0;
            r.producer == s.producer && !r.stored[cfg.Slot(s.producer.ticket)]
    decreases ConsumerLeft(s.consumer)
  {
    var s' := Move(cfg, s, Consume).0;
    ConsumerGoesOn(cfg, s, s');
    if ConsumerLeft(s'.consumer) > 0 {
      WaitingProducerIsServed(cfg, s');
    }
    ExecuteFirst(cfg, s, Consume, ConsumerLeft(s'.consumer));
  }

  /** Operations the producer still has to do on its slot. */
  function ProducerLeft<T>(p: Producer<T>): nat {
    match p
    case PWait(_, _) => 3
    case PWrite(_, _) => 2
    case PStore(_, _) => 1
    case _ => 0
  }

  lemma ProducerGoesOn<T>(cfg: Config, s: Spsc<T>, e: T, s': Spsc<T>)
    requires SpscInv(cfg, s) && s' == Move(cfg, s, Produce(e)).0
    requires s.consumer.CWait? && !s.stored[cfg.Slot(s.consumer.ticket)]
    ensures SpscInv(cfg, s') && s'.consumer == s.consumer
    ensures ProducerLeft(s.producer) > 0 && ProducerLeft(s'.producer) == ProducerLeft(s.producer) - 1
    ensures s'.stored[cfg.Slot(s.consumer.ticket)] <==> ProducerLeft(s'.producer) == 0
  {
    EmptyForConsumer(cfg, s);
    MoveRefinesFifo(cfg, s, Produce(e));
  }

  /** Three operations of the producer, at most, fill the slot a consumer waits for. */
  lemma {:induction false} WaitingConsumerIsServed<T>(cfg: Config, s: Spsc<T>, e: T)
    requires SpscInv(cfg, s) && s.consumer.CWait? && !s.stored[cfg.Slot(s.consumer.ticket)]
    ensures 1 <= ProducerLeft(s.producer) <= 3
    ensures var r := Execute(cfg, s, seq(ProducerLeft(s.producer), _ => Produce(e))).0;
            r.consumer == s.consumer && r.stored[cfg.Slot(s.consumer.ticket)]
    decreases ProducerLeft(s.producer)
  {
    var s' := Move(cfg, s, Produce(e)).0;
    ProducerGoesOn(cfg, s, e, s');
    if ProducerLeft(s'.producer) > 0 {
      WaitingConsumerIsServed(cfg, s', e);
    }
    ExecuteFirst(cfg, s, Produce(e), ProducerLeft(s'.producer));
  }

  lemma ExecuteFirst<T>(cfg: Config, s: Spsc<T>, m: Mover<T>, n: nat)
    requires Sized(cfg, s)
    ensures Execute(cfg, s, seq(n + 1, _ => m)).0 == Execute(cfg, Move(cfg, s, m).0, seq(n, _ => m)).0
  {
    assert seq(n + 1, _ => m)[1..] == seq(n, _ => m);
  }
}
