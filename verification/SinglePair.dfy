/** The compare-and-swap branch of include/queue/Queue.h (m_isSPSC == false, the default) with one thread
    that only pushes and one that only pops. Each of its atomic operations is one of the plain loads and
    stores of the single-producer single-consumer branch, so that it is a first-in-first-out queue, too. */
module SinglePair {
  import opened AtomicQueue
  import opened SpscQueue

  /** Thread 0 pushes, thread 1 pops; an idle pusher starts `try_push(elem)`. */
  function MoveThread<T>(cfg: Config, s: State<T>, m: Mover<T>): State<T>
    requires Shaped(cfg, s)
  {
    match m
    case Produce(e) => Step(cfg, s, 0, BeginPush(e))
    case Consume => Step(cfg, s, 1, BeginPop)
  }

  /** What a client sees of the operation that took the moving thread from `t` to `t'`. */
  function Seen<T>(cfg: Config, s: State<T>, t: Thread<T>, t': Thread<T>): Event<T>
    requires Shaped(cfg, s)
  {
    match t
    case PushRead(_, _) => if t'.Idle? then RefuseFull else Silent
    case PushWritten(e, _) => Enqueue(e)
    case PopRead(_) => if t'.Idle? then RefuseEmpty else Silent
    case PopOwn(k, _) => Dequeue(s.elems[cfg.Slot(k)])
    case _ => Silent
  }

  function PairMove<T>(cfg: Config, s: State<T>, m: Mover<T>): (r: (State<T>, Event<T>))
    requires Shaped(cfg, s) && |s.threads| == 2
    ensures Shaped(cfg, r.0) && |r.0.threads| == 2
  {
    var s', i := MoveThread(cfg, s, m), if m.Consume? then 1 else 0;
    (s', Seen(cfg, s, s.threads[i], s'.threads[i]))
  }

  // ---------------------------------------------------------------- the same queue

  ghost predicate PushesAs<T>(t: Thread<T>, p: Producer<T>) {
    match p
    case PIdle => t == Idle
    case PLoaded(e, h) => t == PushRead(e, h)
    case PRoom(e, h) => t == PushTested(e, h)
    case PWait(e, k) => t == PushWait(e, k)
    case PWrite(e, k) => t == PushOwn(e, k)
    case PStore(e, k) => t == PushWritten(e, k)
  }

  ghost predicate PopsAs<T>(t: Thread<T>, c: Consumer<T>) {
    match c
    case CIdle => t == Idle
    case CLoaded(k) => t == PopRead(k)
    case CReady(k) => t == PopTested(k)
    case CWait(k) => t == PopWait(k)
    case CMove(k) => t.PopOwn? && t.ticket == k
    case CClear(k, e) => t == PopMoved(k, e)
  }

  /** The slot state that the plain branch leaves out: who is at work on the slot. */
  function SlotStateOf<T>(cfg: Config, p: Spsc<T>, j: nat): SlotState
    requires SpscQueue.Sized(cfg, p) && j < cfg.size
  {
    if p.stored[j] then
      if (p.consumer.CMove? || p.consumer.CClear?) && cfg.Slot(p.consumer.ticket) == j then LOADING else STORED
    else if (p.producer.PWrite? || p.producer.PStore?) && cfg.Slot(p.producer.ticket) == j then STORING
    else EMPTY
  }

  ghost predicate Alike<T>(cfg: Config, s: State<T>, p: Spsc<T>) {
    && Shaped(cfg, s) && SpscQueue.Sized(cfg, p) && |s.threads| == 2
    && s.head == p.head && s.tail == p.tail && s.elems == p.elems
    && PushesAs(s.threads[0], p.producer) && PopsAs(s.threads[1], p.consumer)
    && forall j | 0 <= j < cfg.size :: s.states[j] == SlotStateOf(cfg, p, j)
  }

  /** Where the two movers stand, as far as the likeness depends on it. */
  ghost predicate Placed<T>(cfg: Config, p: Spsc<T>)
    requires SpscQueue.Sized(cfg, p)
  {
    ProducerAt(cfg, p) && ConsumerAt(cfg, p)
  }

  /** An operation on the counters does the same to both. */
  lemma ProducerCountsAlike<T>(cfg: Config, s: State<T>, p: Spsc<T>, e: T)
    requires Alike(cfg, s, p) && Placed(cfg, p) && (p.producer.PIdle? || p.producer.PLoaded? || p.producer.PRoom?)
    ensures Alike(cfg, PairMove(cfg, s, Produce(e)).0, RunProducer(cfg, p, e).0)
    ensures PairMove(cfg, s, Produce(e)).1 == RunProducer(cfg, p, e).1
  {
    var p' := RunProducer(cfg, p, e).0;
    assert forall j | 0 <= j < cfg.size :: SlotStateOf(cfg, p', j) == SlotStateOf(cfg, p, j);
  }

  /** So does an operation on the pusher's slot; the other slots stay as they are. */
  lemma ProducerSlotAlike<T>(cfg: Config, s: State<T>, p: Spsc<T>, e: T)
    requires Alike(cfg, s, p) && Placed(cfg, p) && (p.producer.PWait? || p.producer.PWrite? || p.producer.PStore?)
    ensures Alike(cfg, PairMove(cfg, s, Produce(e)).0, RunProducer(cfg, p, e).0)
    ensures PairMove(cfg, s, Produce(e)).1 == RunProducer(cfg, p, e).1
  {
    var p', k := RunProducer(cfg, p, e).0, cfg.Slot(p.producer.ticket);
    assert forall j | 0 <= j < cfg.size && j != k :: SlotStateOf(cfg, p', j) == SlotStateOf(cfg, p, j);
  }

  lemma ConsumerCountsAlike<T>(cfg: Config, s: State<T>, p: Spsc<T>)
    requires Alike(cfg, s, p) && Placed(cfg, p) && (p.consumer.CIdle? || p.consumer.CLoaded? || p.consumer.CReady?)
    ensures Alike(cfg, PairMove(cfg, s, Consume).0, RunConsumer(cfg, p).0)
    ensures PairMove(cfg, s, Consume).1 == RunConsumer(cfg, p).1
  {
    var p' := RunConsumer(cfg, p).0;
    assert forall j | 0 <= j < cfg.size :: SlotStateOf(cfg, p', j) == SlotStateOf(cfg, p, j);
  }

  lemma ConsumerSlotAlike<T>(cfg: Config, s: State<T>, p: Spsc<T>)
    requires Alike(cfg, s, p) && Placed(cfg, p) && (p.consumer.CWait? || p.consumer.CMove? || p.consumer.CClear?)
    ensures Alike(cfg, PairMove(cfg, s, Consume).0, RunConsumer(cfg, p).0)
    ensures PairMove(cfg, s, Consume).1 == RunConsumer(cfg, p).1
  {
    var p', k := RunConsumer(cfg, p).0, cfg.Slot(p.consumer.ticket);
    forall j | 0 <= j < cfg.size && j != k ensures SlotStateOf(cfg, p', j) == SlotStateOf(cfg, p, j) {
    }
  }

  /** Each atomic operation of the one branch is one of the other, and a client sees the same. */
  lemma MoveAlike<T>(cfg: Config, s: State<T>, p: Spsc<T>, m: Mover<T>)
    requires Alike(cfg, s, p) && Placed(cfg, p)
    ensures Alike(cfg, PairMove(cfg, s, m).0, Move(cfg, p, m).0) && PairMove(cfg, s, m).1 == Move(cfg, p, m).1
  {
    match m {
      case Produce(e) =>
        if p.producer.PIdle? || p.producer.PLoaded? || p.producer.PRoom? {
          ProducerCountsAlike(cfg, s, p, e);
        } else {
          ProducerSlotAlike(cfg, s, p, e);
        }
      case Consume =>
        if p.consumer.CIdle? || p.consumer.CLoaded? || p.consumer.CReady? {
          ConsumerCountsAlike(cfg, s, p);
        } else {
          ConsumerSlotAlike(cfg, s, p);
        }
    }
  }

  // ---------------------------------------------------------------- whole runs

  /** The state after any schedule of the two threads, together with what clients saw. */
  ghost function ExecutePair<T>(cfg: Config, s: State<T>, schedule: seq<Mover<T>>): (r: (State<T>, seq<Event<T>>))
    requires Shaped(cfg, s) && |s.threads| == 2
    decreases |schedule|
  {
    if schedule == [] then (s, [])
    else
      var (s1, ev) := PairMove(cfg, s, schedule[0]);
      var (s2, evs) := ExecutePair(cfg, s1, schedule[1..]);
      (s2, [ev] + evs)
  }

  lemma {:induction false} ExecutionsAlike<T>(cfg: Config, s: State<T>, p: Spsc<T>, schedule: seq<Mover<T>>)
    requires Alike(cfg, s, p) && SpscInv(cfg, p)
    ensures Alike(cfg, ExecutePair(cfg, s, schedule).0, Execute(cfg, p, schedule).0)
    ensures ExecutePair(cfg, s, schedule).1 == Execute(cfg, p, schedule).1
    decreases |schedule|
  {
    if schedule != [] {
      MoveAlike(cfg, s, p, schedule[0]);
      MoveRefinesFifo(cfg, p, schedule[0]);
      ExecutionsAlike(cfg, PairMove(cfg, s, schedule[0]).0, Move(cfg, p, schedule[0]).0, schedule[1..]);
    }
  }

  /** With one pusher and one popper, every schedule of the compare-and-swap queue is a history of the
      bounded first-in-first-out queue, and no stale load is possible. */
  lemma PairIsFifo<T(!new)>(cfg: Config, elems: seq<T>, schedule: seq<Mover<T>>) returns (waiting: seq<T>)
    requires cfg.Valid() && |elems| == cfg.size
    ensures var r := ExecutePair(cfg, Init(cfg, elems, 2), schedule);
            && FifoHistory(cfg.size, [], r.1, waiting) && |waiting| <= cfg.size
            && Timely(r.0) && r.0.tail <= r.0.head <= r.0.tail + cfg.size
  {
    var s, p := Init(cfg, elems, 2), SpscInit(cfg, elems);
    SpscInitHasInv(cfg, elems);
    ExecutionsAlike(cfg, s, p, schedule);
    ExecutionIsFifo(cfg, p, schedule);
    var p' := Execute(cfg, p, schedule).0;
    waiting := Contents(cfg, p');
    PairTimely(cfg, ExecutePair(cfg, s, schedule).0, p');
  }

  lemma PairTimely<T>(cfg: Config, s: State<T>, p: Spsc<T>)
    requires Alike(cfg, s, p) && SpscInv(cfg, p)
    ensures Timely(s)
  {
  }
}
