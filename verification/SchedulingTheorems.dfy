/** What every interleaving of clients and workers of the scheduler keeps. */
module SchedulingTheorems {
  import opened Counting
  import opened Words
  import opened Scheduling

  // ---------------------------------------------------------------- where a job is

  function Is(job: nat): nat -> bool {
    (n: nat) => n == job
  }

  /** The worker has popped the job, which is still on the processing list. */
  function Processes(job: nat): Worker -> bool {
    (w: Worker) => (w.Working? || w.InCallback?) && w.job == job
  }

  /** The worker has taken the job off the list and not yet deleted it. */
  function Releases(job: nat): Worker -> bool {
    (w: Worker) => w.Releasing? && w.job == job
  }

  function Present(): Worker -> bool {
    (w: Worker) => !w.Gone?
  }

  function Queued(queues: seq<seq<Item>>, job: nat): nat {
    if queues == [] then 0 else Count(queues[0], HasJob(job)) + Queued(queues[1..], job)
  }

  /** The places a job can be in, each counted. */
  ghost function Places(s: System, job: nat): nat {
    Queued(s.m.queue, job) + Count(s.m.processing, HasJob(job))
    + Count(s.workers, Releases(job)) + Count(s.m.freed, Is(job))
  }

  ghost predicate Accounted(s: System, job: nat) {
    && Count(s.added, Is(job)) <= 1
    && Places(s, job) == Count(s.added, Is(job))
    && Count(s.workers, Processes(job)) == Count(s.m.processing, HasJob(job))
  }

  /** The worker count is right, and a stopped manager has nothing queued. */
  ghost predicate Tidy(s: System) {
    && Shaped(s.m) && s.m.workers == Count(s.workers, Present())
    && (!s.m.running ==> forall p | 0 <= p < PRIORITIES :: s.m.queue[p] == [])
  }

  ghost predicate Inv(s: System) {
    Tidy(s) && forall job: nat :: Accounted(s, job)
  }

  // ---------------------------------------------------------------- counting

  lemma {:induction false} QueuedUpdate(queues: seq<seq<Item>>, p: nat, items: seq<Item>, job: nat)
    requires p < |queues|
    ensures Queued(queues[p := items], job) + Count(queues[p], HasJob(job))
            == Queued(queues, job) + Count(items, HasJob(job))
  {
    if p == 0 {
      assert queues[0 := items][1..] == queues[1..];
    } else {
      assert queues[p := items][1..] == queues[1..][p - 1 := items];
      QueuedUpdate(queues[1..], p - 1, items, job);
    }
  }

  lemma {:induction false} NothingQueued(n: nat, job: nat)
    ensures Queued(seq(n, _ => []), job) == 0
  {
    if n > 0 {
      var s: seq<seq<Item>> := seq(n, _ => []);
      assert s[1..] == seq(n - 1, _ => []);
      NothingQueued(n - 1, job);
    }
  }

  lemma {:induction false} JobsCounted(items: seq<Item>, job: nat)
    ensures Count(Jobs(items), Is(job)) == Count(items, HasJob(job))
  {
    if items != [] {
      JobsCounted(items[1..], job);
    }
  }

  lemma {:induction false} QueuedCounted(queues: seq<seq<Item>>, job: nat)
    ensures Count(QueuedJobs(queues), Is(job)) == Queued(queues, job)
  {
    if queues != [] {
      QueuedCounted(queues[1..], job);
      JobsCounted(queues[0], job);
      CountAppend(Jobs(queues[0]), QueuedJobs(queues[1..]), Is(job));
    }
  }

  lemma {:induction false} SameJobs(a: seq<Item>, b: seq<Item>, job: nat)
    requires |a| == |b| && forall i | 0 <= i < |a| :: a[i].job == b[i].job
    ensures Count(a, HasJob(job)) == Count(b, HasJob(job))
  {
    if a != [] {
      SameJobs(a[1..], b[1..], job);
    }
  }

  lemma {:induction false} FoundJob(items: seq<Item>, job: nat)
    requires Count(items, HasJob(job)) > 0
    ensures IndexOfJob(items, job) < |items|
  {
    if items[0].job != job {
      FoundJob(items[1..], job);
    }
  }

  /** One worker changes. */
  lemma WorkerUpdate(ws: seq<Worker>, i: nat, w: Worker, job: nat)
    requires i < |ws|
    ensures Count(ws[i := w], Processes(job)) + Bit(Processes(job)(ws[i]))
            == Count(ws, Processes(job)) + Bit(Processes(job)(w))
    ensures Count(ws[i := w], Releases(job)) + Bit(Releases(job)(ws[i]))
            == Count(ws, Releases(job)) + Bit(Releases(job)(w))
  {
    CountUpdate(ws, i, w, Processes(job));
    CountUpdate(ws, i, w, Releases(job));
  }

  /** Waking neither takes a job nor gives one up. */
  lemma {:induction false} WokenCounts(ws: seq<Worker>, p: Worker -> bool)
    requires p(Asleep) == p(Awake)
    ensures Count(WakeAll(ws), p) == Count(ws, p)
  {
    if ws != [] {
      assert WakeAll(ws)[1..] == WakeAll(ws[1..]);
      WokenCounts(ws[1..], p);
    }
  }

  lemma WokenKeeps(ws: seq<Worker>, wake: Wake, job: nat)
    ensures Count(Woken(ws, wake), Processes(job)) == Count(ws, Processes(job))
    ensures Count(Woken(ws, wake), Releases(job)) == Count(ws, Releases(job))
    ensures Count(Woken(ws, wake), Present()) == Count(ws, Present()) + Bit(wake == Spawn)
  {
    WokenCounts(ws, Processes(job));
    WokenCounts(ws, Releases(job));
    WokenCounts(ws, Present());
    CountOneMore(ws, Awake, Processes(job));
    CountOneMore(ws, Awake, Releases(job));
    CountOneMore(ws, Awake, Present());
  }

  // ---------------------------------------------------------------- one step, one job

  lemma AddAccounts(s: System, added: nat, callback: bool, priority: nat, a: Added, job: nat)
    requires Shaped(s.m) && Accounted(s, job) && added !in s.added && priority < PRIORITIES
    requires a == Add(s.m, added, callback, priority)
    ensures Accounted(System(a.m, Woken(s.workers, a.wake), s.added + [added]), job)
  {
    WokenKeeps(s.workers, a.wake, job);
    CountOneMore(s.added, added, Is(job));
    if job == added {
      CountNone(s.added, Is(job));
    }
    AddMoves(s.m, added, callback, priority, job);
  }

  /** The new job is queued, or freed at once when the manager is stopped. */
  lemma AddMoves(m: Manager, added: nat, callback: bool, priority: nat, job: nat)
    requires Shaped(m) && priority < PRIORITIES
    ensures var m' := Add(m, added, callback, priority).m;
            && m'.processing == m.processing
            && Queued(m'.queue, job) + Count(m'.freed, Is(job))
              == Queued(m.queue, job) + Count(m.freed, Is(job)) + Bit(job == added)
  {
    var item := Item(added, NextId(m.counter), priority, callback);
    CountOneMore(m.freed, added, Is(job));
    CountOneMore(m.queue[priority], item, HasJob(job));
    QueuedUpdate(m.queue, priority, m.queue[priority] + [item], job);
  }

  lemma CancelAccounts(s: System, id: nat, job: nat)
    requires Shaped(s.m) && Accounted(s, job)
    ensures Accounted(Step(s, CancelJob(id)), job)
  {
    var m := s.m;
    var p := QueueWithId(m, id, 0);
    if p < PRIORITIES {
      var items, i := m.queue[p], IndexOfId(m.queue[p], id);
      QueuedUpdate(m.queue, p, Without(items, i), job);
      CountRemove(items, i, HasJob(job));
      CountOneMore(m.freed, items[i].job, Is(job));
    } else {
      SameJobs(m.processing, Cancel(m, id).processing, job);
    }
  }

  lemma CancelAllAccounts(s: System, m: Manager, ws: seq<Worker>, job: nat)
    requires Accounted(s, job) && m == CancelAll(s.m) && ws == WakeAll(s.workers)
    ensures Accounted(System(m, ws, s.added), job)
  {
    WokenCounts(s.workers, Processes(job));
    WokenCounts(s.workers, Releases(job));
    CancelAllMoves(s.m, job);
  }

  /** What was queued is freed. */
  lemma CancelAllMoves(m: Manager, job: nat)
    ensures var m' := CancelAll(m);
            && Queued(m'.queue, job) == 0 && Count(m'.processing, HasJob(job)) == Count(m.processing, HasJob(job))
            && Count(m'.freed, Is(job)) == Count(m.freed, Is(job)) + Queued(m.queue, job)
  {
    NothingQueued(|m.queue|, job);
    QueuedCounted(m.queue, job);
    CountAppend(m.freed, QueuedJobs(m.queue), Is(job));
    SameJobs(m.processing, NoCallbacks(m.processing), job);
  }

  lemma PopAccounts(s: System, i: nat, p: nat, job: nat)
    requires Shaped(s.m) && Accounted(s, job)
    requires i < |s.workers| && s.workers[i].Awake? && p < PRIORITIES && s.m.queue[p] != []
    ensures Accounted(s.(m := Popped(s.m, p), workers := s.workers[i := Working(s.m.queue[p][0].job)]), job)
  {
    var items := s.m.queue[p];
    WorkerUpdate(s.workers, i, Working(items[0].job), job);
    QueuedUpdate(s.m.queue, p, items[1..], job);
    CountOneMore(s.m.processing, items[0], HasJob(job));
  }

  /** A worker finds its job on the processing list. */
  lemma WorkerFindsJob(s: System, i: nat)
    requires i < |s.workers| && (s.workers[i].Working? || s.workers[i].InCallback?) && Accounted(s, s.workers[i].job)
    ensures IndexOfJob(s.m.processing, s.workers[i].job) < |s.m.processing|
  {
    CountOne(s.workers, i, Processes(s.workers[i].job));
    FoundJob(s.m.processing, s.workers[i].job);
  }

  lemma FinishAccounts(s: System, i: nat, done: nat, m: Manager, ws: seq<Worker>, job: nat)
    requires Accounted(s, job) && i < |s.workers| && s.workers[i] == InCallback(done) && Accounted(s, done)
    requires m == Finished(s.m, done) && ws == s.workers[i := Releasing(done)]
    ensures Accounted(System(m, ws, s.added), job)
  {
    WorkerFindsJob(s, i);
    WorkerUpdate(s.workers, i, Releasing(done), job);
    CountRemove(s.m.processing, IndexOfJob(s.m.processing, done), HasJob(job));
  }

  lemma FreeAccounts(s: System, i: nat, done: nat, m: Manager, ws: seq<Worker>, job: nat)
    requires Accounted(s, job) && i < |s.workers| && s.workers[i] == Releasing(done)
    requires m == s.m.(freed := s.m.freed + [done]) && ws == s.workers[i := Awake]
    ensures Accounted(System(m, ws, s.added), job)
  {
    WorkerUpdate(s.workers, i, Awake, job);
    CountOneMore(s.m.freed, done, Is(job));
  }

  /** A worker's step that moves no job. */
  lemma WorkerAccounts(s: System, i: nat, w: Worker, m: Manager, ws: seq<Worker>, job: nat)
    requires Accounted(s, job) && i < |s.workers| && ws == s.workers[i := w]
    requires m.queue == s.m.queue && m.processing == s.m.processing && m.freed == s.m.freed
    requires Processes(job)(s.workers[i]) == Processes(job)(w) && Releases(job)(s.workers[i]) == Releases(job)(w)
    ensures Accounted(System(m, ws, s.added), job)
  {
    WorkerUpdate(s.workers, i, w, job);
  }

  lemma RunAccounts(s: System, i: nat, job: nat)
    requires Shaped(s.m) && Accounted(s, job) && i < |s.workers|
    requires s.workers[i].Working? || s.workers[i].InCallback? ==> Accounted(s, s.workers[i].job)
    ensures Accounted(RunWorker(s, i), job)
  {
    var s' := RunWorker(s, i);
    match s.workers[i] {
      case Awake =>
        if s.m.running && PopBelow(s.m, PRIORITIES) >= 0 {
          PopAccounts(s, i, PopBelow(s.m, PRIORITIES), job);
        } else {
          WorkerAccounts(s, i, s'.workers[i], s'.m, s'.workers, job);
        }
      case Working(done) =>
        WorkerFindsJob(s, i);
        WorkerAccounts(s, i, InCallback(done), s'.m, s'.workers, job);
      case InCallback(done) => FinishAccounts(s, i, done, s'.m, s'.workers, job);
      case Releasing(done) => FreeAccounts(s, i, done, s'.m, s'.workers, job);
      case _ => WorkerAccounts(s, i, s'.workers[i], s'.m, s'.workers, job);
    }
  }

  lemma StepAccounts(s: System, e: Event, job: nat)
    requires Inv(s)
    ensures Accounted(Step(s, e), job)
  {
    assert Accounted(s, job);
    match e {
      case AddJob(added, callback, priority) =>
        if added !in s.added && priority < PRIORITIES {
          AddAccounts(s, added, callback, priority, Add(s.m, added, callback, priority), job);
        }
      case CancelJob(id) => CancelAccounts(s, id, job);
      case CancelJobs => CancelAllAccounts(s, CancelAll(s.m), WakeAll(s.workers), job);
      case Run(i) =>
        if i < |s.workers| {
          if s.workers[i].Working? || s.workers[i].InCallback? {
            assert Accounted(s, s.workers[i].job);
          }
          RunAccounts(s, i, job);
        }
      case _ =>
    }
  }

  lemma RunTidy(s: System, i: nat)
    requires Tidy(s) && i < |s.workers|
    ensures Tidy(RunWorker(s, i))
  {
    CountUpdate(s.workers, i, RunWorker(s, i).workers[i], Present());
    CountOneIf(s.workers, i);
  }

  lemma WokenTidy(m: Manager, ws: seq<Worker>, wake: Wake, added: seq<nat>)
    requires Shaped(m) && m.workers == Count(ws, Present()) + Bit(wake == Spawn)
    requires !m.running ==> forall p | 0 <= p < PRIORITIES :: m.queue[p] == []
    ensures Tidy(System(m, Woken(ws, wake), added))
  {
    WokenKeeps(ws, wake, 0);
  }

  lemma CancelTidy(s: System, m: Manager, id: nat)
    requires Tidy(s) && m == Cancel(s.m, id)
    ensures Tidy(System(m, s.workers, s.added))
  {
    // a stopped manager's queues are empty, so nothing is found in them
    assert !s.m.running ==> QueueWithId(s.m, id, 0) == PRIORITIES;
  }

  lemma AddTidy(s: System, job: nat, callback: bool, priority: nat, a: Added)
    requires Tidy(s) && priority < PRIORITIES && a == Add(s.m, job, callback, priority)
    ensures Tidy(System(a.m, Woken(s.workers, a.wake), s.added + [job]))
  {
    WokenTidy(a.m, s.workers, a.wake, s.added + [job]);
  }

  lemma ClientTidy(s: System, e: Event)
    requires Tidy(s) && !e.Run?
    ensures Tidy(Step(s, e))
  {
    match e {
      case AddJob(job, callback, priority) =>
        if job !in s.added && priority < PRIORITIES {
          AddTidy(s, job, callback, priority, Add(s.m, job, callback, priority));
        }
      case CancelJob(id) => CancelTidy(s, Cancel(s.m, id), id);
      case CancelJobs => WokenTidy(CancelAll(s.m), s.workers, NotifyAll, s.added);
      case _ =>
    }
  }

  lemma StepTidy(s: System, e: Event)
    requires Tidy(s)
    ensures Tidy(Step(s, e))
  {
    if !e.Run? {
      ClientTidy(s, e);
    } else if e.worker < |s.workers| {
      RunTidy(s, e.worker);
    }
  }

  lemma CountOneIf(ws: seq<Worker>, i: nat)
    requires i < |ws|
    ensures !ws[i].Gone? ==> Count(ws, Present()) >= 1
  {
    if !ws[i].Gone? {
      CountOne(ws, i, Present());
    }
  }

  lemma StepKeepsInv(s: System, e: Event)
    requires Inv(s)
    ensures Inv(Step(s, e))
  {
    StepTidy(s, e);
    forall job: nat ensures Accounted(Step(s, e), job) {
      StepAccounts(s, e, job);
    }
  }

  lemma InitHasInv(hardware: nat)
    ensures Inv(Init(hardware))
  {
    forall job: nat ensures Accounted(Init(hardware), job) {
      NothingQueued(PRIORITIES, job);
    }
  }

  // ---------------------------------------------------------------- runs

  ghost predicate Transition(s: System, s': System)
    requires Shaped(s.m)
  {
    exists e: Event :: s' == Step(s, e)
  }

  /** Some interleaving of clients and workers on a machine of the given size. */
  ghost predicate Execution(hardware: nat, run: seq<System>) {
    && |run| > 0 && run[0] == Init(hardware)
    && (forall k | 0 <= k < |run| :: Shaped(run[k].m))
    && (forall k | 0 <= k < |run| - 1 :: Transition(run[k], run[k + 1]))
  }

  lemma {:induction false} ExecutionHasInv(hardware: nat, run: seq<System>, k: nat)
    requires Execution(hardware, run) && k < |run|
    ensures Inv(run[k])
  {
    if k == 0 {
      InitHasInv(hardware);
    } else {
      ExecutionHasInv(hardware, run, k - 1);
      assert Transition(run[k - 1], run[k]);
      var e: Event :| run[k] == Step(run[k - 1], e);
      StepKeepsInv(run[k - 1], e);
    }
  }

  lemma {:induction false} CountOf(s: seq<nat>, job: nat)
    ensures Count(s, Is(job)) > 0 <==> job in s
  {
    if job in s {
      var i :| 0 <= i < |s| && s[i] == job;
      CountOne(s, i, Is(job));
    } else {
      CountNone(s, Is(job));
    }
  }

  /** Every job ever handed to addJob is in exactly one place: queued, on the processing list, in the
      hands of the worker that just took it off the list, or freed; it is freed at most once. No other
      job is anywhere. */
  lemma EachJobInOnePlace(hardware: nat, run: seq<System>, k: nat, job: nat)
    requires Execution(hardware, run) && k < |run|
    ensures Places(run[k], job) == if job in run[k].added then 1 else 0
    ensures Count(run[k].m.freed, Is(job)) <= 1
  {
    ExecutionHasInv(hardware, run, k);
    assert Accounted(run[k], job);
    CountOf(run[k].added, job);
  }

  /** A worker that holds a job finds it on the processing list, in both halves of onJobComplete, and
      no two workers hold the same job. */
  lemma WorkersOwnTheirJobs(hardware: nat, run: seq<System>, k: nat, i: nat)
    requires Execution(hardware, run) && k < |run| && i < |run[k].workers|
    requires run[k].workers[i].Working? || run[k].workers[i].InCallback?
    ensures IndexOfJob(run[k].m.processing, run[k].workers[i].job) < |run[k].m.processing|
    ensures Count(run[k].workers, Processes(run[k].workers[i].job)) == 1
  {
    var s, job := run[k], run[k].workers[i].job;
    ExecutionHasInv(hardware, run, k);
    assert Accounted(s, job);
    WorkerFindsJob(s, i);
    CountOne(s.workers, i, Processes(job));
  }
}
