/** The scheduler of src/thread/JobManager.cpp as a state machine: what its critical sections do to its
    fields, and what holds over all interleavings of clients and workers. Jobs are told apart by
    number; every job a client hands over is a new one. */
module Scheduling {
  import opened Counting
  import opened Words

  // ---------------------------------------------------------------- the manager's fields

  const PRIORITIES: nat := 5
  const LOW_PAUSABLE: nat := 0
  const LOW: nat := 1
  const NORMAL: nat := 2
  const HIGH: nat := 3
  const DEDICATED: nat := 4

  datatype Item = Item(job: nat, id: nat, priority: nat, callback: bool)

  /** `workers` counts the worker threads; `freed` lists the jobs deleted so far. */
  datatype Manager = Manager(
    hardware: nat,
    counter: nat,
    running: bool,
    paused: bool,
    queue: seq<seq<Item>>,
    processing: seq<Item>,
    workers: nat,
    freed: seq<nat>)

  ghost predicate Shaped(m: Manager) {
    |m.queue| == PRIORITIES && m.counter < TWO32
  }

  /** getMaxWorkers, in 32-bit unsigned arithmetic. */
  function MaxWorkers(hardware: nat, priority: nat): nat {
    var max := if hardware <= 2 then 1 else hardware;
    if priority == DEDICATED then 10000 else (max - (HIGH - priority)) % TWO32
  }

  /** What startWorkers decides. */
  datatype Wake = NoWake | NotifyAll | Spawn

  function StartWorkers(m: Manager, priority: nat): Wake {
    if |m.processing| >= MaxWorkers(m.hardware, priority) then NoWake
    else if |m.processing| < m.workers then NotifyAll
    else Spawn
  }

  /** The next job number; 0 is skipped when the counter wraps. */
  function NextId(counter: nat): (id: nat)
    ensures 0 < id < TWO32
  {
    var n := (counter + 1) % TWO32;
    if n == 0 then 1 else n
  }

  datatype Added = Added(m: Manager, id: nat, wake: Wake)

  function Add(m: Manager, job: nat, callback: bool, priority: nat): Added
    requires Shaped(m) && priority < PRIORITIES
  {
    if !m.running then Added(m.(freed := m.freed + [job]), 0, NoWake)
    else
      var id := NextId(m.counter);
      var queued := m.(counter := id,
        queue := m.queue[priority := m.queue[priority] + [Item(job, id, priority, callback)]]);
      var wake := StartWorkers(queued, priority);
      Added(if wake == Spawn then queued.(workers := m.workers + 1) else queued, id, wake)
  }

  predicate CanPop(m: Manager, priority: nat)
    requires Shaped(m) && priority < PRIORITIES
  {
    && !(priority == LOW_PAUSABLE && m.paused)
    && m.queue[priority] != [] && |m.processing| < MaxWorkers(m.hardware, priority)
  }

  /** The first priority below `n`, from the top, that popJob may take from; -1 when there is none. */
  function PopBelow(m: Manager, n: nat): (p: int)
    requires Shaped(m) && n <= PRIORITIES
    ensures -1 <= p < n && (p >= 0 ==> CanPop(m, p)) && forall q | p < q < n :: !CanPop(m, q)
  {
    if n == 0 then -1 else if CanPop(m, n - 1) then n - 1 else PopBelow(m, n - 1)
  }

  function Popped(m: Manager, priority: nat): Manager
    requires Shaped(m) && priority < PRIORITIES && m.queue[priority] != []
  {
    m.(queue := m.queue[priority := m.queue[priority][1..]], processing := m.processing + [m.queue[priority][0]])
  }

  function HasId(id: nat): Item -> bool {
    (item: Item) => item.id == id
  }

  function HasJob(job: nat): Item -> bool {
    (item: Item) => item.job == job
  }

  /** `std::find`: the first item with the property, or the length. */
  function IndexWhere(items: seq<Item>, p: Item -> bool): (i: nat)
    ensures i <= |items| && (i < |items| ==> p(items[i]))
  {
    if items == [] || p(items[0]) then 0 else 1 + IndexWhere(items[1..], p)
  }

  function IndexOfId(items: seq<Item>, id: nat): nat {
    IndexWhere(items, HasId(id))
  }

  function IndexOfJob(items: seq<Item>, job: nat): nat {
    IndexWhere(items, HasJob(job))
  }

  function Without<T>(s: seq<T>, i: nat): seq<T>
    requires i < |s|
  {
    s[..i] + s[i + 1..]
  }

  /** The lowest priority from `n` on whose queue has the job number; PRIORITIES when none has. */
  function QueueWithId(m: Manager, id: nat, n: nat): (p: nat)
    requires Shaped(m) && n <= PRIORITIES
    ensures n <= p <= PRIORITIES && (p < PRIORITIES ==> IndexOfId(m.queue[p], id) < |m.queue[p]|)
    decreases PRIORITIES - n
  {
    if n == PRIORITIES || IndexOfId(m.queue[n], id) < |m.queue[n]| then n else QueueWithId(m, id, n + 1)
  }

  /** A queued job is deleted; a job being processed only loses its callback. */
  function Cancel(m: Manager, id: nat): Manager
    requires Shaped(m)
  {
    var p := QueueWithId(m, id, 0);
    if p < PRIORITIES then
      var i := IndexOfId(m.queue[p], id);
      m.(queue := m.queue[p := Without(m.queue[p], i)], freed := m.freed + [m.queue[p][i].job])
    else
      var i := IndexOfId(m.processing, id);
      if i < |m.processing| then m.(processing := m.processing[i := m.processing[i].(callback := false)]) else m
  }

  function Jobs(items: seq<Item>): (s: seq<nat>)
    ensures |s| == |items|
  {
    if items == [] then [] else [items[0].job] + Jobs(items[1..])
  }

  function QueuedJobs(queues: seq<seq<Item>>): seq<nat> {
    if queues == [] then [] else Jobs(queues[0]) + QueuedJobs(queues[1..])
  }

  function NoCallbacks(items: seq<Item>): (s: seq<Item>)
    ensures |s| == |items|
  {
    seq(|items|, i requires 0 <= i < |items| => items[i].(callback := false))
  }

  /** Everything queued is deleted, lowest priority first, and no new job is accepted. */
  function CancelAll(m: Manager): Manager {
    m.(running := false, queue := seq(|m.queue|, _ => []), processing := NoCallbacks(m.processing),
       freed := m.freed + QueuedJobs(m.queue))
  }

  /** A finished job leaves the processing list. */
  function Finished(m: Manager, job: nat): Manager {
    var i := IndexOfJob(m.processing, job);
    if i < |m.processing| then m.(processing := Without(m.processing, i)) else m
  }

  // ---------------------------------------------------------------- threads

  /** A worker between its critical sections. */
  datatype Worker =
    | Awake                // about to look for a job
    | Asleep               // waiting on the condition variable
    | Working(job: nat)    // has popped a job
    | InCallback(job: nat) // completion reported, lock released
    | Releasing(job: nat)  // job off the processing list, about to delete it
    | Leaving              // found the manager stopped
    | Gone

  datatype System = System(m: Manager, workers: seq<Worker>, added: seq<nat>)

  datatype Event =
    | AddJob(job: nat, callback: bool, priority: nat)
    | CancelJob(id: nat)
    | CancelJobs
    | Restart
    | Pause
    | Unpause
    | Run(worker: nat)

  function Init(hardware: nat): System {
    System(Manager(hardware, 0, true, false, seq(PRIORITIES, _ => []), [], 0, []), [], [])
  }

  function WakeAll(ws: seq<Worker>): (s: seq<Worker>)
    ensures |s| == |ws|
  {
    seq(|ws|, i requires 0 <= i < |ws| => if ws[i] == Asleep then Awake else ws[i])
  }

  function Woken(ws: seq<Worker>, wake: Wake): seq<Worker> {
    match wake
    case NoWake => ws
    case NotifyAll => WakeAll(ws)
    case Spawn => ws + [Awake]
  }

  function RunWorker(s: System, i: nat): System
    requires Shaped(s.m) && i < |s.workers|
  {
    match s.workers[i]
    case Awake =>
      if !s.m.running then s.(workers := s.workers[i := Leaving])
      else
        var p := PopBelow(s.m, PRIORITIES);
        if p >= 0 then s.(m := Popped(s.m, p), workers := s.workers[i := Working(s.m.queue[p][0].job)])
        else s.(workers := s.workers[i := Asleep])
    case Asleep => s.(workers := s.workers[i := Awake])  // a spurious wake-up
    case Working(job) =>
      if IndexOfJob(s.m.processing, job) < |s.m.processing| then s.(workers := s.workers[i := InCallback(job)])
      else s.(workers := s.workers[i := Awake])
    case InCallback(job) => s.(m := Finished(s.m, job), workers := s.workers[i := Releasing(job)])
    case Releasing(job) => s.(m := s.m.(freed := s.m.freed + [job]), workers := s.workers[i := Awake])
    case Leaving => s.(m := s.m.(workers := if s.m.workers > 0 then s.m.workers - 1 else 0),
      workers := s.workers[i := Gone])
    case Gone => s
  }

  function Step(s: System, e: Event): System
    requires Shaped(s.m)
  {
    match e
    case AddJob(job, callback, priority) =>
      if job in s.added || priority >= PRIORITIES then s
      else
        var a := Add(s.m, job, callback, priority);
        System(a.m, Woken(s.workers, a.wake), s.added + [job])
    case CancelJob(id) => s.(m := Cancel(s.m, id))
    case CancelJobs => s.(m := CancelAll(s.m), workers := WakeAll(s.workers))
    case Restart => s.(m := s.m.(running := true))
    case Pause => s.(m := s.m.(paused := true))
    case Unpause => s.(m := s.m.(paused := false))
    case Run(i) => if i < |s.workers| then RunWorker(s, i) else s
  }
}
