/** What the critical sections of src/thread/JobManager.cpp promise, item by item, without the functions
    that model them. */
module SchedulingClaims {
  import opened Words
  import opened Scheduling

  // ---------------------------------------------------------------- cancelling one job

  /** The first item with the number. */
  predicate FirstWithId(items: seq<Item>, id: nat, i: nat) {
    i < |items| && items[i].id == id && forall k | 0 <= k < i :: items[k].id != id
  }

  predicate HasNoId(items: seq<Item>, id: nat) {
    forall k | 0 <= k < |items| :: items[k].id != id
  }

  /** In the lowest queue that has the number, its first item with it. */
  predicate FirstQueued(queue: seq<seq<Item>>, id: nat, p: nat, i: nat) {
    p < |queue| && FirstWithId(queue[p], id, i) && forall q | 0 <= q < p :: HasNoId(queue[q], id)
  }

  predicate NoneQueued(queue: seq<seq<Item>>, id: nat) {
    forall p | 0 <= p < |queue| :: HasNoId(queue[p], id)
  }

  /** What cancelling number `id` promises. A queued job with the number leaves its queue and is deleted;
      with none queued, the first job being processed with it loses its callback. Nothing else changes. */
  ghost predicate Cancelled(m: Manager, m': Manager, id: nat) {
    && (!NoneQueued(m.queue, id) ==> exists p: nat, i: nat :: FirstQueued(m.queue, id, p, i) && Dropped(m, m', p, i))
    && (NoneQueued(m.queue, id) && HasNoId(m.processing, id) ==> m' == m)
    && (NoneQueued(m.queue, id) && !HasNoId(m.processing, id) ==>
          exists i: nat :: FirstWithId(m.processing, id, i) && Silenced(m, m', i))
  }

  /** Item `i` of queue `p` has gone and its job is deleted. */
  predicate Dropped(m: Manager, m': Manager, p: nat, i: nat)
    requires p < |m.queue| && i < |m.queue[p]|
  {
    m' == m.(queue := m.queue[p := m.queue[p][..i] + m.queue[p][i + 1..]], freed := m.freed + [m.queue[p][i].job])
  }

  /** Item `i` being processed has no callback any more. */
  predicate Silenced(m: Manager, m': Manager, i: nat)
    requires i < |m.processing|
  {
    m' == m.(processing := m.processing[i := m.processing[i].(callback := false)])
  }

  lemma {:induction false} IndexIsFirst(items: seq<Item>, id: nat)
    ensures IndexOfId(items, id) < |items| ==> FirstWithId(items, id, IndexOfId(items, id))
    ensures IndexOfId(items, id) == |items| <==> HasNoId(items, id)
  {
    if items != [] && items[0].id != id {
      IndexIsFirst(items[1..], id);
      var i := IndexOfId(items[1..], id);
      assert IndexOfId(items, id) == i + 1;
      forall k | 0 <= k < i + 1 ensures items[k].id != id {
        assert k > 0 ==> items[k] == items[1..][k - 1];
      }
      if i == |items[1..]| {
        forall k | 0 <= k < |items| ensures items[k].id != id {
          assert k > 0 ==> items[k] == items[1..][k - 1];
        }
      }
    }
  }

  lemma {:induction false} LowestQueue(m: Manager, id: nat, n: nat)
    requires Shaped(m) && n <= PRIORITIES
    ensures forall q | n <= q < QueueWithId(m, id, n) :: HasNoId(m.queue[q], id)
    ensures QueueWithId(m, id, n) < PRIORITIES ==> !HasNoId(m.queue[QueueWithId(m, id, n)], id)
    decreases PRIORITIES - n
  {
    if n < PRIORITIES {
      var items := m.queue[n];
      IndexIsFirst(items, id);
      if IndexOfId(items, id) == |items| {
        assert HasNoId(items, id);
        LowestQueue(m, id, n + 1);
        assert QueueWithId(m, id, n) == QueueWithId(m, id, n + 1);
      } else {
        assert QueueWithId(m, id, n) == n;
      }
    }
  }

  lemma CancelIs(m: Manager, id: nat)
    requires Shaped(m)
    ensures Cancelled(m, Cancel(m, id), id)
  {
    var p := QueueWithId(m, id, 0);
    LowestQueue(m, id, 0);
    IndexIsFirst(m.processing, id);
    if p < PRIORITIES {
      IndexIsFirst(m.queue[p], id);
      var i := IndexOfId(m.queue[p], id);
      assert FirstQueued(m.queue, id, p, i) && Dropped(m, Cancel(m, id), p, i);
    } else if !HasNoId(m.processing, id) {
      assert Silenced(m, Cancel(m, id), IndexOfId(m.processing, id));
    }
  }

  // ---------------------------------------------------------------- limits and numbers

  /** The worker limits in full. On one or two processors the subtraction wraps below NORMAL. */
  lemma MaxWorkersIs(hardware: nat, priority: nat)
    requires hardware < TWO32 && priority < PRIORITIES
    ensures priority == DEDICATED ==> MaxWorkers(hardware, priority) == 10000
    ensures priority < DEDICATED && hardware >= 3 ==> MaxWorkers(hardware, priority) == hardware - 3 + priority
    ensures priority < DEDICATED && hardware <= 2 ==>
              MaxWorkers(hardware, priority) == [0xFFFF_FFFE, 0xFFFF_FFFF, 0, 1][priority]
  {
  }

  // ---------------------------------------------------------------- taking a job

  /** The queue is not empty, not paused, and its limit leaves room. */
  predicate Admissible(m: Manager, p: nat)
    requires p < |m.queue|
  {
    && m.queue[p] != [] && (p == LOW_PAUSABLE ==> !m.paused)
    && |m.processing| < MaxWorkers(m.hardware, p)
  }

  /** The front job of queue `p`, the highest that may be taken from, is now being processed. */
  ghost predicate Taken(m: Manager, m': Manager, p: nat) {
    && p < |m.queue| && Admissible(m, p) && (forall q | p < q < |m.queue| :: !Admissible(m, q))
    && m' == m.(queue := m.queue[p := m.queue[p][1..]], processing := m.processing + [m.queue[p][0]])
  }

  /** A worker finds a job exactly when some queue may be taken from, and then takes the right one. */
  lemma PopIs(m: Manager)
    requires Shaped(m)
    ensures PopBelow(m, PRIORITIES) < 0 <==> forall p | 0 <= p < PRIORITIES :: !Admissible(m, p)
    ensures var p := PopBelow(m, PRIORITIES); p >= 0 ==> Taken(m, Popped(m, p), p)
  {
    forall p: nat | p < PRIORITIES ensures Admissible(m, p) <==> CanPop(m, p) {
    }
  }

  // ---------------------------------------------------------------- finishing

  /** The first item with the job. */
  predicate FirstWithJob(items: seq<Item>, job: nat, i: nat) {
    i < |items| && items[i].job == job && forall k | 0 <= k < i :: items[k].job != job
  }

  predicate HasNoJob(items: seq<Item>, job: nat) {
    forall k | 0 <= k < |items| :: items[k].job != job
  }

  lemma {:induction false} IndexIsFirstJob(items: seq<Item>, job: nat)
    ensures IndexOfJob(items, job) < |items| ==> FirstWithJob(items, job, IndexOfJob(items, job))
    ensures IndexOfJob(items, job) == |items| <==> HasNoJob(items, job)
  {
    if items != [] && items[0].job != job {
      IndexIsFirstJob(items[1..], job);
      var i := IndexOfJob(items[1..], job);
      assert IndexOfJob(items, job) == i + 1;
      forall k | 0 <= k < i + 1 ensures items[k].job != job {
        assert k > 0 ==> items[k] == items[1..][k - 1];
      }
    }
  }

  /** What a completion promises: the first listing of the job goes, its listener is told exactly when
      that listing still has one, and the job is deleted; an unlisted job changes nothing. */
  ghost predicate Completed(m: Manager, m': Manager, job: nat, told: bool) {
    && (HasNoJob(m.processing, job) ==> m' == m && !told)
    && (!HasNoJob(m.processing, job) ==> exists i: nat ::
          && FirstWithJob(m.processing, job, i) && told == m.processing[i].callback
          && m' == m.(processing := m.processing[..i] + m.processing[i + 1..], freed := m.freed + [job]))
  }

  // ---------------------------------------------------------------- cancelling everything

  function Sizes(queues: seq<seq<Item>>): nat {
    if queues == [] then 0 else |queues[0]| + Sizes(queues[1..])
  }

  /** The jobs of the queues one after the other, each queue from its front. */
  lemma {:induction false} QueuedAt(queues: seq<seq<Item>>, p: nat, i: nat)
    requires p < |queues| && i < |queues[p]|
    ensures |QueuedJobs(queues)| == Sizes(queues) > Sizes(queues[..p]) + i
    ensures QueuedJobs(queues)[Sizes(queues[..p]) + i] == queues[p][i].job
  {
    SizesAre(queues[1..]);
    if p == 0 {
      JobAt(queues[0], i);
    } else {
      QueuedAt(queues[1..], p - 1, i);
      assert queues[..p][1..] == queues[1..][..p - 1];
    }
  }

  lemma {:induction false} SizesAre(queues: seq<seq<Item>>)
    ensures |QueuedJobs(queues)| == Sizes(queues)
  {
    if queues != [] {
      SizesAre(queues[1..]);
    }
  }

  lemma {:induction false} JobAt(items: seq<Item>, i: nat)
    requires i < |items|
    ensures Jobs(items)[i] == items[i].job
  {
    if i > 0 {
      JobAt(items[1..], i - 1);
    }
  }

  /** What cancelling everything promises: the manager is stopped, its queues are empty, the running jobs
      only lose their callbacks, and the queued jobs are deleted, from the lowest priority up and each
      queue from its front. */
  ghost predicate AllCancelled(m: Manager, m': Manager) {
    && !m'.running && |m'.processing| == |m.processing| && |m'.queue| == |m.queue|
    && m' == m.(running := false, queue := m'.queue, processing := m'.processing, freed := m'.freed)
    && (forall p | 0 <= p < |m.queue| :: m'.queue[p] == [])
    && (forall k | 0 <= k < |m.processing| :: m'.processing[k] == m.processing[k].(callback := false))
    && |m'.freed| == |m.freed| + Sizes(m.queue) && m'.freed[..|m.freed|] == m.freed
    && forall p, i | 0 <= p < |m.queue| && 0 <= i < |m.queue[p]| :: DeletedAt(m, m', p, i)
  }

  ghost predicate DeletedAt(m: Manager, m': Manager, p: nat, i: nat)
    requires p < |m.queue| && i < |m.queue[p]|
  {
    var n := |m.freed| + Sizes(m.queue[..p]) + i;
    n < |m'.freed| && m'.freed[n] == m.queue[p][i].job
  }

  lemma CancelAllIs(m: Manager)
    ensures AllCancelled(m, CancelAll(m))
  {
    SizesAre(m.queue);
    forall p, i | 0 <= p < |m.queue| && 0 <= i < |m.queue[p]| ensures DeletedAt(m, CancelAll(m), p, i) {
      QueuedAt(m.queue, p, i);
    }
  }

  // ---------------------------------------------------------------- what clients do to the workers

  /** Every sleeping worker is awake, the others are as they were. */
  predicate AllWoken(ws: seq<Worker>, ws': seq<Worker>) {
    && |ws'| == |ws|
    && forall i | 0 <= i < |ws| :: ws'[i] == if ws[i] == Asleep then Awake else ws[i]
  }

  /** Handing a new job over. A stopped manager only deletes it. Otherwise it waits behind the jobs of its
      priority under the next number; below the limit all sleeping workers are woken if there are more
      workers than jobs being processed, and else one more worker is started. */
  lemma AddStepIs(s: System, job: nat, callback: bool, priority: nat)
    requires Shaped(s.m) && job !in s.added && priority < PRIORITIES
    ensures var s' := Step(s, AddJob(job, callback, priority));
            && s'.added == s.added + [job]
            && (!s.m.running ==> s'.m == s.m.(freed := s.m.freed + [job]) && s'.workers == s.workers)
            && (s.m.running ==> Handed(s, s', Item(job, if s.m.counter + 1 == TWO32 then 1 else s.m.counter + 1,
                                                   priority, callback)))
  {
  }

  ghost predicate Handed(s: System, s': System, item: Item)
    requires item.priority < |s.m.queue|
  {
    var p, busy := item.priority, |s.m.processing|;
    var room := busy < MaxWorkers(s.m.hardware, p);
    && s'.m == s.m.(counter := item.id, queue := s.m.queue[p := s.m.queue[p] + [item]],
                    workers := s.m.workers + (if room && busy >= s.m.workers then 1 else 0))
    && (!room ==> s'.workers == s.workers)
    && (room && busy < s.m.workers ==> AllWoken(s.workers, s'.workers))
    && (room && busy >= s.m.workers ==> s'.workers == s.workers + [Awake])
  }

  /** The other calls of clients: only cancelling everything wakes workers, and all of them. */
  lemma ClientStepIs(s: System, e: Event)
    requires Shaped(s.m) && !e.AddJob? && !e.Run?
    ensures Step(s, e).added == s.added
    ensures if e.CancelJobs? then AllWoken(s.workers, Step(s, e).workers) && AllCancelled(s.m, Step(s, e).m)
            else Step(s, e).workers == s.workers
    ensures e.CancelJob? ==> Cancelled(s.m, Step(s, e).m, e.id)
    ensures e.Restart? ==> Step(s, e).m == s.m.(running := true)
    ensures e.Pause? ==> Step(s, e).m == s.m.(paused := true)
    ensures e.Unpause? ==> Step(s, e).m == s.m.(paused := false)
  {
    match e {
      case CancelJob(id) => CancelIs(s.m, id);
      case CancelJobs => CancelAllIs(s.m);
      case _ =>
    }
  }
}
