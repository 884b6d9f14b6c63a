/** Which job the scheduler starts next, how many it runs at once, and on which machines that is so. */
module SchedulingOrder {
  import opened Counting
  import opened Words
  import opened Scheduling
  import opened SchedulingTheorems

  // ---------------------------------------------------------------- the limits

  /** A higher priority may never use fewer workers than a lower one. */
  ghost predicate LimitsGrow(hardware: nat) {
    forall p: nat, q: nat | p <= q < PRIORITIES :: MaxWorkers(hardware, p) <= MaxWorkers(hardware, q)
  }

  /** On one or two processors the unsigned subtraction wraps, on more than 10000 the dedicated
      priority is overtaken; otherwise the limits grow. */
  lemma LimitsGrowIff(hardware: nat)
    requires hardware < TWO32
    ensures LimitsGrow(hardware) <==> 3 <= hardware <= 10000
  {
    if hardware <= 2 {
      assert MaxWorkers(hardware, LOW) > MaxWorkers(hardware, NORMAL);
    } else if hardware > 10000 {
      assert MaxWorkers(hardware, HIGH) > MaxWorkers(hardware, DEDICATED);
    }
  }

  /** The priorities that never run: normal jobs on one or two processors, pausable ones on three. */
  lemma StarvedIff(hardware: nat, p: nat)
    requires hardware < TWO32 && p < PRIORITIES
    ensures (forall m: Manager | Shaped(m) && m.hardware == hardware :: !CanPop(m, p))
       <==> (hardware <= 2 && p == NORMAL) || (hardware == 3 && p == LOW_PAUSABLE)
  {
    var q := seq(PRIORITIES, _ => [Item(0, 1, p, false)]);
    var m := Manager(hardware, 0, true, false, q, [], 0, []);
    assert Shaped(m) && m.hardware == hardware;
    if !((hardware <= 2 && p == NORMAL) || (hardware == 3 && p == LOW_PAUSABLE)) {
      assert MaxWorkers(hardware, p) > 0;
      assert CanPop(m, p);
    } else {
      assert MaxWorkers(hardware, p) == 0;
    }
  }

  // ---------------------------------------------------------------- highest priority first

  /** popJob takes from a queue only when all higher queues are empty. */
  ghost predicate TakesHighest(m: Manager)
    requires Shaped(m)
  {
    var p := PopBelow(m, PRIORITIES);
    p >= 0 ==> forall q | p < q < PRIORITIES :: m.queue[q] == []
  }

  lemma TakesHighestWhen(m: Manager)
    requires Shaped(m) && LimitsGrow(m.hardware)
    ensures TakesHighest(m)
  {
    var p := PopBelow(m, PRIORITIES);
    forall q | p >= 0 && p < q < PRIORITIES ensures m.queue[q] == [] {
      assert !CanPop(m, q) && MaxWorkers(m.hardware, p) <= MaxWorkers(m.hardware, q);
    }
  }

  // ---------------------------------------------------------------- reserved workers

  function AtMost(p: nat): Item -> bool {
    (item: Item) => item.priority <= p
  }

  /** No more than the priority's share of workers is busy with jobs of at most that priority. */
  ghost predicate Reserved(m: Manager) {
    forall p: nat | p < PRIORITIES :: Count(m.processing, AtMost(p)) <= MaxWorkers(m.hardware, p)
  }

  /** When a job came in: its place among all jobs added. */
  function Rank(added: seq<nat>, job: nat): (r: nat)
    ensures r <= |added| && (r < |added| <==> job in added)
  {
    if added == [] || added[0] == job then 0 else 1 + Rank(added[1..], job)
  }

  lemma {:induction false} RankKept(added: seq<nat>, job: nat, more: nat)
    requires job in added
    ensures Rank(added + [more], job) == Rank(added, job)
  {
    assert (added + [more])[0] == added[0] && (added + [more])[1..] == added[1..] + [more];
    if added[0] != job {
      RankKept(added[1..], job, more);
    }
  }

  lemma {:induction false} RankNew(added: seq<nat>, job: nat)
    requires job !in added
    ensures Rank(added + [job], job) == |added|
  {
    if added != [] {
      assert (added + [job])[0] == added[0] && (added + [job])[1..] == added[1..] + [job];
      RankNew(added[1..], job);
    }
  }

  /** A queue of priority `p` holds known jobs of that priority, the oldest in front. */
  ghost predicate InOrder(added: seq<nat>, items: seq<Item>, p: nat) {
    && (forall i | 0 <= i < |items| :: items[i].priority == p && items[i].job in added)
    && (forall i, j | 0 <= i < j < |items| :: Rank(added, items[i].job) < Rank(added, items[j].job))
  }

  ghost predicate Ordered(s: System) {
    Shaped(s.m) && forall p: nat | p < PRIORITIES :: InOrder(s.added, s.m.queue[p], p)
  }

  lemma InOrderAppend(added: seq<nat>, items: seq<Item>, p: nat, item: Item)
    requires InOrder(added, items, p) && item.job !in added && item.priority == p
    ensures InOrder(added + [item.job], items + [item], p)
  {
    RankNew(added, item.job);
    forall i | 0 <= i < |items| ensures Rank(added + [item.job], items[i].job) == Rank(added, items[i].job) < |added| {
      RankKept(added, items[i].job, item.job);
    }
  }

  lemma InOrderLater(added: seq<nat>, items: seq<Item>, p: nat, job: nat)
    requires InOrder(added, items, p)
    ensures InOrder(added + [job], items, p)
  {
    forall i | 0 <= i < |items| ensures Rank(added + [job], items[i].job) == Rank(added, items[i].job) {
      RankKept(added, items[i].job, job);
    }
  }

  lemma InOrderWithout(added: seq<nat>, items: seq<Item>, p: nat, i: nat)
    requires InOrder(added, items, p) && i < |items|
    ensures InOrder(added, Without(items, i), p)
  {
  }

  lemma AddKeepsOrder(s: System, job: nat, callback: bool, priority: nat, a: Added, p: nat)
    requires Shaped(s.m) && p < PRIORITIES && InOrder(s.added, s.m.queue[p], p)
    requires job !in s.added && priority < PRIORITIES
    requires a == Add(s.m, job, callback, priority)
    ensures InOrder(s.added + [job], a.m.queue[p], p)
  {
    InOrderLater(s.added, s.m.queue[p], p, job);
    if s.m.running && p == priority {
      InOrderAppend(s.added, s.m.queue[p], p, Item(job, NextId(s.m.counter), priority, callback));
    }
  }

  lemma StepKeepsOrder(s: System, e: Event)
    requires Ordered(s)
    ensures Ordered(Step(s, e))
  {
    var s' := Step(s, e);
    forall p: nat | p < PRIORITIES ensures InOrder(s'.added, s'.m.queue[p], p) {
      QueueKeepsOrder(s, e, p);
    }
  }

  lemma QueueKeepsOrder(s: System, e: Event, p: nat)
    requires Shaped(s.m) && p < PRIORITIES && InOrder(s.added, s.m.queue[p], p)
    ensures InOrder(Step(s, e).added, Step(s, e).m.queue[p], p)
  {
    match e {
      case AddJob(job, callback, priority) =>
        if job !in s.added && priority < PRIORITIES {
          AddKeepsOrder(s, job, callback, priority, Add(s.m, job, callback, priority), p);
        }
      case CancelJob(id) =>
        if QueueWithId(s.m, id, 0) == p {
          InOrderWithout(s.added, s.m.queue[p], p, IndexOfId(s.m.queue[p], id));
        }
      case _ =>
    }
  }

  lemma {:induction false} SamePriorities(a: seq<Item>, b: seq<Item>, p: nat)
    requires |a| == |b| && forall i | 0 <= i < |a| :: a[i].priority == b[i].priority
    ensures Count(a, AtMost(p)) == Count(b, AtMost(p))
  {
    if a != [] {
      SamePriorities(a[1..], b[1..], p);
    }
  }

  lemma PopKeepsReserved(s: System, p: nat)
    requires Ordered(s) && LimitsGrow(s.m.hardware) && Reserved(s.m) && p < PRIORITIES && CanPop(s.m, p)
    ensures Reserved(Popped(s.m, p))
  {
    var item := s.m.queue[p][0];
    assert InOrder(s.added, s.m.queue[p], p);
    forall q: nat | q < PRIORITIES ensures Count(Popped(s.m, p).processing, AtMost(q)) <= MaxWorkers(s.m.hardware, q) {
      CountOneMore(s.m.processing, item, AtMost(q));
      assert Count(s.m.processing, AtMost(q)) <= MaxWorkers(s.m.hardware, q);
      if p <= q {
        assert MaxWorkers(s.m.hardware, p) <= MaxWorkers(s.m.hardware, q);
      }
    }
  }

  lemma OthersKeepReserved(m: Manager, m': Manager)
    requires Reserved(m) && m'.hardware == m.hardware
    requires forall p: nat :: Count(m'.processing, AtMost(p)) <= Count(m.processing, AtMost(p))
    ensures Reserved(m')
  {
  }

  lemma StepKeepsReserved(s: System, e: Event)
    requires Ordered(s) && LimitsGrow(s.m.hardware) && Reserved(s.m)
    ensures Reserved(Step(s, e).m) && Step(s, e).m.hardware == s.m.hardware
  {
    var s' := Step(s, e);
    match e {
      case CancelJob(id) =>
        forall p: nat ensures Count(s'.m.processing, AtMost(p)) <= Count(s.m.processing, AtMost(p)) {
          SamePriorities(s'.m.processing, s.m.processing, p);
        }
        OthersKeepReserved(s.m, s'.m);
      case CancelJobs =>
        forall p: nat ensures Count(s'.m.processing, AtMost(p)) <= Count(s.m.processing, AtMost(p)) {
          SamePriorities(s'.m.processing, s.m.processing, p);
        }
        OthersKeepReserved(s.m, s'.m);
      case Run(i) =>
        if i < |s.workers| {
          RunKeepsReserved(s, i);
        }
      case _ =>
    }
  }

  lemma RunKeepsReserved(s: System, i: nat)
    requires Ordered(s) && LimitsGrow(s.m.hardware) && Reserved(s.m) && i < |s.workers|
    ensures Reserved(RunWorker(s, i).m) && RunWorker(s, i).m.hardware == s.m.hardware
  {
    match s.workers[i] {
      case Awake =>
        if s.m.running && PopBelow(s.m, PRIORITIES) >= 0 {
          PopKeepsReserved(s, PopBelow(s.m, PRIORITIES));
        }
      case InCallback(job) =>
        var at := IndexOfJob(s.m.processing, job);
        if at < |s.m.processing| {
          forall p: nat ensures Count(Finished(s.m, job).processing, AtMost(p)) <= Count(s.m.processing, AtMost(p)) {
            CountRemove(s.m.processing, at, AtMost(p));
          }
          OthersKeepReserved(s.m, Finished(s.m, job));
        }
      case _ =>
    }
  }

  // ---------------------------------------------------------------- every interleaving

  lemma InitOrdered(hardware: nat)
    ensures Ordered(Init(hardware))
  {
    forall p: nat | p < PRIORITIES ensures InOrder([], Init(hardware).m.queue[p], p) {
    }
  }

  lemma HardwareKept(s: System, e: Event)
    requires Shaped(s.m)
    ensures Step(s, e).m.hardware == s.m.hardware
  {
  }

  /** On any machine each queue holds jobs of its priority, in the order in which they were added. */
  lemma {:induction false} QueuesStayOrdered(hardware: nat, run: seq<System>, k: nat)
    requires Execution(hardware, run) && k < |run|
    ensures Ordered(run[k]) && run[k].m.hardware == hardware
  {
    if k > 0 {
      QueuesStayOrdered(hardware, run, k - 1);
      assert Transition(run[k - 1], run[k - 1 + 1]);
      var e: Event :| run[k] == Step(run[k - 1], e);
      StepKeepsOrder(run[k - 1], e);
      HardwareKept(run[k - 1], e);
    } else {
      InitOrdered(hardware);
    }
  }

  /** A worker that finds a job takes, of all jobs queued at that job's priority, the one added first. */
  lemma OldestFirst(hardware: nat, run: seq<System>, k: nat, i: nat, j: nat)
    requires Execution(hardware, run) && k < |run| && i < |run[k].workers| && run[k].workers[i].Awake?
    requires RunWorker(run[k], i).workers[i].Working?
    ensures var s, job := run[k], RunWorker(run[k], i).workers[i].job; var p := PopBelow(s.m, PRIORITIES);
            && p >= 0 && job in s.added
            && (j < |s.m.queue[p]| ==> Rank(s.added, job) <= Rank(s.added, s.m.queue[p][j].job))
  {
    var s := run[k];
    QueuesStayOrdered(hardware, run, k);
    var p := PopBelow(s.m, PRIORITIES);
    assert InOrder(s.added, s.m.queue[p], p);
  }

  lemma SharesStep(hardware: nat, s: System, s': System)
    requires 3 <= hardware <= 10000 && s.m.hardware == hardware && Ordered(s) && Reserved(s.m) && Transition(s, s')
    ensures Reserved(s'.m)
  {
    LimitsGrowIff(hardware);
    var e: Event :| s' == Step(s, e);
    StepKeepsReserved(s, e);
  }

  lemma Neighbours(hardware: nat, run: seq<System>, k: nat)
    requires Execution(hardware, run) && 0 < k < |run|
    ensures Transition(run[k - 1], run[k])
  {
    assert Transition(run[k - 1], run[k - 1 + 1]);
  }

  lemma SharesNext(hardware: nat, run: seq<System>, k: nat, s: System, s': System)
    requires 3 <= hardware <= 10000 && Execution(hardware, run) && k < |run|
    requires s == run[k] && Reserved(s.m) && Transition(s, s')
    ensures Reserved(s'.m)
  {
    QueuesStayOrdered(hardware, run, k);
    SharesStep(hardware, s, s');
  }

  lemma InitReserved(hardware: nat)
    ensures Reserved(Init(hardware).m)
  {
    InitOrdered(hardware);
  }

  lemma {:induction false} SharesUpTo(hardware: nat, run: seq<System>, k: nat)
    requires 3 <= hardware <= 10000 && Execution(hardware, run) && k < |run|
    ensures Reserved(run[k].m)
  {
    if k == 0 {
      InitReserved(hardware);
    } else {
      SharesUpTo(hardware, run, k - 1);
      Neighbours(hardware, run, k);
      SharesNext(hardware, run, k - 1, run[k - 1], run[k]);
    }
  }

  // ---------------------------------------------------------------- runs that fail

  lemma OneMore(hardware: nat, run: seq<System>, e: Event)
    requires Execution(hardware, run)
    ensures Shaped(Step(run[|run| - 1], e).m)
    ensures Execution(hardware, run + [Step(run[|run| - 1], e)])
  {
    var next := run + [Step(run[|run| - 1], e)];
    forall k | 0 <= k < |next| - 1 ensures Transition(next[k], next[k + 1]) {
      if k < |run| - 1 {
        assert Transition(run[k], run[k + 1]);
      }
    }
  }

  lemma Begin(hardware: nat) returns (run: seq<System>)
    ensures Execution(hardware, run) && run == [Init(hardware)]
  {
    run := [Init(hardware)];
  }

  /** `n` high jobs were added and each was started by a worker of its own. */
  ghost predicate AllBusy(s: System, n: nat) {
    && Shaped(s.m) && s.m.running && !s.m.paused
    && |s.m.processing| == s.m.workers == |s.workers| == n
    && (forall p | 0 <= p < PRIORITIES :: s.m.queue[p] == [])
    && (forall i | 0 <= i < n :: s.m.processing[i].priority == HIGH)
    && (forall job | job in s.added :: job < n)
  }

  lemma OneMoreBusy(s: System, n: nat)
    requires AllBusy(s, n) && n < MaxWorkers(s.m.hardware, HIGH)
    ensures var s' := Step(Step(s, AddJob(n, true, HIGH)), Run(n)); AllBusy(s', n + 1) && s'.m.hardware == s.m.hardware
  {
    var s1 := Step(s, AddJob(n, true, HIGH));
    var item := Item(n, NextId(s.m.counter), HIGH, true);
    assert s1.m.queue[HIGH] == [item] && s1.m.queue[DEDICATED] == [];
    assert s1.workers == s.workers + [Awake];
    assert CanPop(s1.m, HIGH) && !CanPop(s1.m, DEDICATED);
    assert PopBelow(s1.m, PRIORITIES) == HIGH;
    var s2 := Step(s1, Run(n));
    assert s2.m.processing == s.m.processing + [item];
    assert [item][1..] == [];
  }

  /** The high priority can fill all its workers. */
  lemma {:induction false} FillHigh(hardware: nat, n: nat) returns (run: seq<System>)
    requires n <= MaxWorkers(hardware, HIGH)
    ensures Execution(hardware, run) && AllBusy(run[|run| - 1], n) && run[|run| - 1].m.hardware == hardware
    decreases n
  {
    if n == 0 {
      run := Begin(hardware);
    } else {
      run := FillHigh(hardware, n - 1);
      var s := run[|run| - 1];
      OneMoreBusy(s, n - 1);
      var e1, e2 := AddJob(n - 1, true, HIGH), Run(n - 1);
      OneMore(hardware, run, e1);
      run := run + [Step(s, e1)];
      OneMore(hardware, run, e2);
      run := run + [Step(run[|run| - 1], e2)];
    }
  }

  lemma {:induction false} CountAll(items: seq<Item>, p: nat)
    requires forall i | 0 <= i < |items| :: items[i].priority <= p
    ensures Count(items, AtMost(p)) == |items|
  {
    if items != [] {
      CountAll(items[1..], p);
    }
  }

  /** On one or two processors a single low job exceeds the share of normal ones, above 10000
      processors 10001 high jobs exceed that of dedicated ones. */
  lemma ShareExceeded(hardware: nat) returns (run: seq<System>)
    requires hardware < TWO32 && !(3 <= hardware <= 10000)
    ensures Execution(hardware, run) && !Reserved(run[|run| - 1].m)
  {
    if hardware <= 2 {
      run := Begin(hardware);
      OneMore(hardware, run, AddJob(7, true, LOW));
      run := run + [Step(run[0], AddJob(7, true, LOW))];
      OneMore(hardware, run, Run(0));
      run := run + [Step(run[1], Run(0))];
      LowOverruns(hardware);
    } else {
      run := FillHigh(hardware, 10001);
      var m := run[|run| - 1].m;
      CountAll(m.processing, DEDICATED);
      assert Count(m.processing, AtMost(DEDICATED)) > MaxWorkers(hardware, DEDICATED);
    }
  }

  lemma LowOverruns(hardware: nat)
    requires hardware <= 2
    ensures !Reserved(Step(Step(Init(hardware), AddJob(7, true, LOW)), Run(0)).m)
  {
    var s1 := Step(Init(hardware), AddJob(7, true, LOW));
    assert s1.workers == [Awake];
    assert s1.m.queue[LOW] == [Item(7, 1, LOW, true)] && s1.m.queue[NORMAL] == [] && s1.m.queue[HIGH] == []
        && s1.m.queue[DEDICATED] == [];
    assert CanPop(s1.m, LOW) && PopBelow(s1.m, PRIORITIES) == LOW;
    var s2 := Step(s1, Run(0));
    assert s2.m.processing == [Item(7, 1, LOW, true)];
    assert Count(s2.m.processing, AtMost(NORMAL)) == 1 && MaxWorkers(hardware, NORMAL) == 0;
  }

  ghost predicate AlwaysReserved(hardware: nat) {
    forall run: seq<System>, k: nat | Execution(hardware, run) && k < |run| :: Reserved(run[k].m)
  }

  /** Every priority's share of workers is kept in every interleaving exactly on machines with 3 to
      10000 processors. */
  lemma SharesAreKeptIff(hardware: nat)
    requires hardware < TWO32
    ensures AlwaysReserved(hardware) <==> 3 <= hardware <= 10000
  {
    if 3 <= hardware <= 10000 {
      forall run: seq<System>, k: nat | Execution(hardware, run) && k < |run| ensures Reserved(run[k].m) {
        SharesUpTo(hardware, run, k);
      }
    } else {
      var run := ShareExceeded(hardware);
      assert Execution(hardware, run) && |run| - 1 < |run|;
    }
  }

  /** A run after which popJob passes over a waiting job of higher priority. */
  lemma Overtaking(hardware: nat) returns (run: seq<System>)
    requires hardware < TWO32 && !(3 <= hardware <= 10000)
    ensures Execution(hardware, run) && !TakesHighest(run[|run| - 1].m)
  {
    var n: nat := if hardware <= 2 then 0 else 10000;
    var low, high := if hardware <= 2 then LOW else HIGH, if hardware <= 2 then NORMAL else DEDICATED;
    run := FillHigh(hardware, n);
    var s := run[|run| - 1];
    OneMore(hardware, run, AddJob(n, true, low));
    run := run + [Step(s, AddJob(n, true, low))];
    OneMore(hardware, run, AddJob(n + 1, true, high));
    run := run + [Step(run[|run| - 1], AddJob(n + 1, true, high))];
    PassesOver(s, n, low, high);
  }

  lemma PassesOver(s: System, n: nat, low: nat, high: nat)
    requires AllBusy(s, n) && low + 1 == high < PRIORITIES
    requires MaxWorkers(s.m.hardware, high) <= n < MaxWorkers(s.m.hardware, low)
    ensures !TakesHighest(Step(Step(s, AddJob(n, true, low)), AddJob(n + 1, true, high)).m)
  {
    var s1 := Step(s, AddJob(n, true, low));
    var s2 := Step(s1, AddJob(n + 1, true, high));
    var m := s2.m;
    assert |m.queue[low]| == 1 && |m.queue[high]| == 1 && |m.processing| == n;
    assert CanPop(m, low);
    forall q | low < q < PRIORITIES ensures !CanPop(m, q) {
      assert q != high ==> m.queue[q] == [];
    }
    var p := PopBelow(m, PRIORITIES);
    assert p == low;
  }

  ghost predicate AlwaysTakesHighest(hardware: nat) {
    forall run: seq<System>, k: nat | Execution(hardware, run) && k < |run| :: TakesHighest(run[k].m)
  }

  /** A job is popped only when all higher queues are empty, in every interleaving, exactly on machines
      with 3 to 10000 processors. */
  lemma TakesHighestIff(hardware: nat)
    requires hardware < TWO32
    ensures AlwaysTakesHighest(hardware) <==> 3 <= hardware <= 10000
  {
    if 3 <= hardware <= 10000 {
      forall run: seq<System>, k: nat | Execution(hardware, run) && k < |run| ensures TakesHighest(run[k].m) {
        LimitsGrowIff(hardware);
        QueuesStayOrdered(hardware, run, k);
        TakesHighestWhen(run[k].m);
      }
    } else {
      var run := Overtaking(hardware);
      assert Execution(hardware, run) && |run| - 1 < |run|;
    }
  }
}
