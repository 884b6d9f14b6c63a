/** Whether a job that may be started can be left waiting while every worker sleeps, and when a worker
    that is about to look for a job is at hand. */
module SchedulingProgress {
  import opened Counting
  import opened Words
  import opened Scheduling
  import opened SchedulingTheorems

  predicate Quiet(w: Worker) {
    w.Asleep? || w.Gone?
  }

  ghost predicate AllQuiet(ws: seq<Worker>) {
    forall i | 0 <= i < |ws| :: Quiet(ws[i])
  }

  /** Some queued job may be started. */
  ghost predicate WorkToDo(m: Manager)
    requires Shaped(m)
  {
    exists p: nat :: p < PRIORITIES && CanPop(m, p)
  }

  /** While a job may be started, some worker is neither asleep nor gone: it is awake, still busy with
      an earlier job, or leaving. */
  ghost predicate Attended(s: System) {
    Shaped(s.m) && (AllQuiet(s.workers) ==> !WorkToDo(s.m))
  }

  // ---------------------------------------------------------------- the two ways to lose a wake-up

  /** Unpausing while everybody sleeps and a pausable job may be started: nobody is notified. */
  ghost predicate UnpausesAsleep(s: System, e: Event)
    requires Shaped(s.m)
  {
    && e.Unpause? && AllQuiet(s.workers) && s.m.queue[LOW_PAUSABLE] != []
    && |s.m.processing| < MaxWorkers(s.m.hardware, LOW_PAUSABLE)
  }

  /** The last worker that is not asleep leaves although a job may be started. */
  ghost predicate LastLeaves(s: System, e: Event)
    requires Shaped(s.m)
  {
    && e.Run? && e.worker < |s.workers| && s.workers[e.worker].Leaving?
    && AllQuiet(s.workers[e.worker := Gone]) && WorkToDo(s.m)
  }

  lemma AddAttended(s: System, job: nat, callback: bool, priority: nat, a: Added)
    requires Tidy(s) && Attended(s) && priority < PRIORITIES && a == Add(s.m, job, callback, priority)
    ensures Attended(System(a.m, Woken(s.workers, a.wake), s.added + [job]))
  {
    var ws := Woken(s.workers, a.wake);
    if a.wake.Spawn? {
      assert !Quiet(ws[|s.workers|]);
    }
    if AllQuiet(ws) {
      match a.wake {
        case NoWake => AddedWaits(s.m, job, callback, priority);
        case NotifyAll => WakesSomebody(s.workers);
        case Spawn =>
      }
    }
  }

  /** With nobody woken, the new job may not be started, and no other job's chances change. */
  lemma AddedWaits(m: Manager, job: nat, callback: bool, priority: nat)
    requires Shaped(m) && priority < PRIORITIES && Add(m, job, callback, priority).wake == NoWake
    requires !WorkToDo(m)
    ensures !WorkToDo(Add(m, job, callback, priority).m)
  {
    var m' := Add(m, job, callback, priority).m;
    forall p: nat | p < PRIORITIES ensures !CanPop(m', p) {
      assert !CanPop(m, p);
    }
  }

  lemma WakesSomebody(ws: seq<Worker>)
    requires Count(ws, Present()) > 0
    ensures !AllQuiet(WakeAll(ws))
  {
    var i := CountWitness(ws, Present());
    assert !Quiet(WakeAll(ws)[i]);
  }

  lemma FewerChances(m: Manager, m': Manager)
    requires Shaped(m) && Shaped(m') && !WorkToDo(m)
    requires forall p: nat | p < PRIORITIES :: CanPop(m', p) ==> CanPop(m, p)
    ensures !WorkToDo(m')
  {
  }

  lemma CancelAttended(s: System, id: nat)
    requires Attended(s)
    ensures Attended(Step(s, CancelJob(id)))
  {
    if !WorkToDo(s.m) {
      FewerChances(s.m, Cancel(s.m, id));
    }
  }

  lemma UnpauseAttendedIff(s: System)
    requires Attended(s)
    ensures Attended(Step(s, Unpause)) <==> !UnpausesAsleep(s, Unpause)
  {
    var m' := Step(s, Unpause).m;
    if AllQuiet(s.workers) {
      forall p: nat | 0 < p < PRIORITIES ensures !CanPop(m', p) {
        assert !CanPop(s.m, p);
      }
      assert CanPop(m', LOW_PAUSABLE) <==> UnpausesAsleep(s, Unpause);
    }
  }

  lemma RunAttendedIff(s: System, i: nat)
    requires Tidy(s) && Attended(s) && i < |s.workers|
    ensures Attended(RunWorker(s, i)) <==> !LastLeaves(s, Run(i))
  {
    var s' := RunWorker(s, i);
    if s.workers[i].Leaving? {
      assert s'.workers == s.workers[i := Gone];
      assert forall p: nat | p < PRIORITIES :: CanPop(s'.m, p) <==> CanPop(s.m, p);
    } else if AllQuiet(s'.workers) {
      assert Quiet(s'.workers[i]);
      match s.workers[i] {
        case Awake => assert PopBelow(s.m, PRIORITIES) == -1;
        case Gone =>
      }
    }
  }

  /** Every step keeps startable jobs attended except exactly these two: unpausing while everybody
      sleeps and a pausable job could start, and the last worker leaving a startable job behind. */
  lemma StepAttendedIff(s: System, e: Event)
    requires Tidy(s) && Attended(s)
    ensures Attended(Step(s, e)) <==> !UnpausesAsleep(s, e) && !LastLeaves(s, e)
  {
    match e {
      case AddJob(job, callback, priority) =>
        if job !in s.added && priority < PRIORITIES {
          AddAttended(s, job, callback, priority, Add(s.m, job, callback, priority));
        }
      case CancelJob(id) => CancelAttended(s, id);
      case Run(i) =>
        if i < |s.workers| {
          RunAttendedIff(s, i);
        }
      case Pause =>
        if !WorkToDo(s.m) {
          FewerChances(s.m, s.m.(paused := true));
        }
      case Unpause => UnpauseAttendedIff(s);
      case Restart =>
        if !WorkToDo(s.m) {
          FewerChances(s.m, s.m.(running := true));
        }
      case CancelJobs =>
        forall p: nat | p < PRIORITIES ensures !CanPop(CancelAll(s.m), p) {
        }
    }
  }

  /** A run with the events that led through it. */
  ghost predicate RunBy(hardware: nat, run: seq<System>, events: seq<Event>) {
    && Execution(hardware, run) && |events| == |run| - 1
    && forall k | 0 <= k < |events| :: run[k + 1] == Step(run[k], events[k])
  }

  lemma InitAttended(hardware: nat)
    ensures Attended(Init(hardware))
  {
    forall p: nat | p < PRIORITIES ensures !CanPop(Init(hardware).m, p) {
    }
  }

  lemma {:induction false} AttendedUpTo(hardware: nat, run: seq<System>, events: seq<Event>, k: nat)
    requires RunBy(hardware, run, events) && k < |run|
    requires forall l | 0 <= l < k :: !UnpausesAsleep(run[l], events[l]) && !LastLeaves(run[l], events[l])
    ensures Attended(run[k])
  {
    if k > 0 {
      AttendedUpTo(hardware, run, events, k - 1);
      ExecutionHasInv(hardware, run, k - 1);
      StepAttendedIff(run[k - 1], events[k - 1]);
      assert run[k - 1 + 1] == Step(run[k - 1], events[k - 1]);
    } else {
      InitAttended(hardware);
    }
  }

  /** In an interleaving of any clients and workers no startable job ever waits with every worker
      asleep or gone exactly when neither of the two events occurs. */
  lemma NoLostWakeUpIff(hardware: nat, run: seq<System>, events: seq<Event>)
    requires RunBy(hardware, run, events)
    ensures (forall k | 0 <= k < |run| :: Attended(run[k]))
       <==> (forall k | 0 <= k < |events| :: !UnpausesAsleep(run[k], events[k]) && !LastLeaves(run[k], events[k]))
  {
    if forall k | 0 <= k < |events| :: !UnpausesAsleep(run[k], events[k]) && !LastLeaves(run[k], events[k]) {
      forall k | 0 <= k < |run| ensures Attended(run[k]) {
        AttendedUpTo(hardware, run, events, k);
      }
    } else {
      var k :| 0 <= k < |events| && (UnpausesAsleep(run[k], events[k]) || LastLeaves(run[k], events[k]));
      ExecutionHasInv(hardware, run, k);
      if Attended(run[k]) {
        StepAttendedIff(run[k], events[k]);
        assert !Attended(run[k + 1]);
      }
    }
  }

  // ---------------------------------------------------------------- restarts

  /** Only a stopped manager has workers leaving. */
  ghost predicate LeavingStopped(s: System) {
    forall i | 0 <= i < |s.workers| :: s.workers[i].Leaving? ==> !s.m.running
  }

  /** A restart before every worker that found the manager stopped has gone. */
  ghost predicate RestartsEarly(s: System, e: Event) {
    e.Restart? && exists i :: 0 <= i < |s.workers| && s.workers[i].Leaving?
  }

  /** A manager runs again with workers leaving exactly after an early restart. */
  lemma StepLeavingStoppedIff(s: System, e: Event)
    requires Tidy(s) && LeavingStopped(s)
    ensures LeavingStopped(Step(s, e)) <==> !RestartsEarly(s, e)
  {
    var s' := Step(s, e);
    if RestartsEarly(s, e) {
      var i :| 0 <= i < |s.workers| && s.workers[i].Leaving?;
      assert s'.workers[i].Leaving? && s'.m.running;
    }
  }

  /** While leaving workers mean a stopped manager, the last one leaves nothing behind. */
  lemma StoppedLeavesNothing(s: System, e: Event)
    requires Tidy(s) && LeavingStopped(s)
    ensures !LastLeaves(s, e)
  {
  }

  lemma {:induction false} LeavingStoppedUpTo(hardware: nat, run: seq<System>, events: seq<Event>, k: nat)
    requires RunBy(hardware, run, events) && k < |run|
    requires forall l | 0 <= l < k :: !RestartsEarly(run[l], events[l])
    ensures LeavingStopped(run[k])
  {
    if k > 0 {
      LeavingStoppedUpTo(hardware, run, events, k - 1);
      ExecutionHasInv(hardware, run, k - 1);
      StepLeavingStoppedIff(run[k - 1], events[k - 1]);
      assert run[k - 1 + 1] == Step(run[k - 1], events[k - 1]);
    }
  }

  /** Clients need only mind their own calls: no restart while a worker is leaving, no unpausing of a
      startable job while everybody sleeps. */
  lemma NoLostWakeUp(hardware: nat, run: seq<System>, events: seq<Event>, k: nat)
    requires RunBy(hardware, run, events) && k < |run|
    requires forall l | 0 <= l < k :: !UnpausesAsleep(run[l], events[l]) && !RestartsEarly(run[l], events[l])
    ensures Attended(run[k]) && LeavingStopped(run[k])
  {
    LeavingStoppedUpTo(hardware, run, events, k);
    forall l | 0 <= l < k ensures !LastLeaves(run[l], events[l]) {
      ExecutionHasInv(hardware, run, l);
      LeavingStoppedUpTo(hardware, run, events, l);
      StoppedLeavesNothing(run[l], events[l]);
    }
    AttendedUpTo(hardware, run, events, k);
  }

  // ---------------------------------------------------------------- how soon somebody looks

  /** Own steps until a worker looks for a job. */
  function StepsToLook(w: Worker): nat {
    match w
    case Releasing(_) => 1
    case InCallback(_) => 2
    case Working(_) => 3
    case _ => 0
  }

  /** A busy worker comes nearer to its next look with each step of its own, and is awake then. */
  lemma ComesBack(s: System, i: nat)
    requires Inv(s) && i < |s.workers| && StepsToLook(s.workers[i]) > 0
    ensures var w := RunWorker(s, i).workers[i];
            StepsToLook(w) == StepsToLook(s.workers[i]) - 1 && (StepsToLook(w) == 0 ==> w.Awake?)
  {
    if s.workers[i].Working? {
      assert Accounted(s, s.workers[i].job);
      WorkerFindsJob(s, i);
    }
  }

  /** Nothing others do moves it away. */
  lemma OthersLeaveIt(s: System, e: Event, i: nat)
    requires Shaped(s.m) && i < |s.workers| && !Quiet(s.workers[i]) && (e.Run? ==> e.worker != i)
    ensures i < |Step(s, e).workers| && Step(s, e).workers[i] == s.workers[i]
  {
  }

  lemma OneEvent(s: System, e: Event, i: nat)
    requires Inv(s) && i < |s.workers| && !Quiet(s.workers[i])
    requires e == Run(i) ==> StepsToLook(s.workers[i]) > 0
    ensures i < |Step(s, e).workers|
    ensures var w, w' := s.workers[i], Step(s, e).workers[i];
            if e != Run(i) then w' == w
            else StepsToLook(w') == StepsToLook(w) - 1 && (StepsToLook(w') == 0 ==> w'.Awake?)
  {
    if e == Run(i) {
      ComesBack(s, i);
    } else {
      OthersLeaveIt(s, e, i);
    }
  }

  /** Steps of worker `i` among the events from `a` to `b`. */
  function OwnSteps(events: seq<Event>, i: nat, a: nat, b: nat): nat
    requires a <= b <= |events|
  {
    if a == b then 0 else OwnSteps(events, i, a, b - 1) + if events[b - 1] == Run(i) then 1 else 0
  }

  /** In an interleaving of any clients and workers, a busy worker that has `k` own steps to go is awake,
      and about to look for a job, once it has done `k` of them, whatever the others do in between. */
  lemma {:induction false} BusyWorkerLooksAgain(hardware: nat, run: seq<System>, events: seq<Event>, i: nat,
                                                a: nat, b: nat)
    requires RunBy(hardware, run, events) && a <= b < |run|
    requires i < |run[a].workers| && StepsToLook(run[a].workers[i]) > 0
    requires OwnSteps(events, i, a, b) <= StepsToLook(run[a].workers[i])
    ensures i < |run[b].workers|
    ensures StepsToLook(run[b].workers[i]) == StepsToLook(run[a].workers[i]) - OwnSteps(events, i, a, b)
    ensures StepsToLook(run[b].workers[i]) == 0 ==> run[b].workers[i].Awake?
  {
    if a < b {
      var e := events[b - 1];
      BusyWorkerLooksAgain(hardware, run, events, i, a, b - 1);
      ExecutionHasInv(hardware, run, b - 1);
      assert run[b - 1 + 1] == Step(run[b - 1], e);
      OneEvent(run[b - 1], e, i);
    }
  }

  /** Somebody is about to look for a job. */
  ghost predicate SomebodyAwake(ws: seq<Worker>) {
    exists i :: 0 <= i < |ws| && ws[i].Awake?
  }

  /** While a job may be started, somebody is about to look for one. */
  ghost predicate Served(s: System) {
    Shaped(s.m) && (WorkToDo(s.m) ==> SomebodyAwake(s.workers))
  }

  /** Priority `p` has more than `n` jobs queued, and may start one while `busy` jobs are processed. */
  ghost predicate Startable(m: Manager, p: nat, n: nat, busy: int)
    requires Shaped(m) && p < PRIORITIES
  {
    !(p == LOW_PAUSABLE && m.paused) && |m.queue[p]| > n && busy < MaxWorkers(m.hardware, p)
  }

  /** Priority `q` could start a job beside the next one that popJob takes, of priority `p`. */
  ghost predicate StartableBeside(m: Manager, p: nat, q: nat)
    requires Shaped(m) && q < PRIORITIES
  {
    Startable(m, q, if q == p then 1 else 0, |m.processing| + 1)
  }

  ghost predicate AnotherStartable(m: Manager, p: nat)
    requires Shaped(m)
  {
    exists q: nat :: q < PRIORITIES && StartableBeside(m, p, q)
  }

  predicate Listed(m: Manager, job: nat) {
    exists i :: 0 <= i < |m.processing| && m.processing[i].job == job
  }

  /** Priority `q` could start a job if the given one were done. */
  ghost predicate StartableAfter(m: Manager, job: nat, q: nat)
    requires Shaped(m) && q < PRIORITIES
  {
    Startable(m, q, 0, |m.processing| - (if Listed(m, job) then 1 else 0))
  }

  ghost predicate StartableWithout(m: Manager, job: nat)
    requires Shaped(m)
  {
    exists q: nat :: q < PRIORITIES && StartableAfter(m, job, q)
  }

  /** The events that leave a startable job with nobody about to look for one, judged before they
      happen: notifying when nobody sleeps, unpausing with nobody awake, the only worker awake taking
      one of several startable jobs, and a job finishing with nobody awake when that makes room. */
  ghost predicate LeavesUnserved(s: System, e: Event)
    requires Shaped(s.m)
  {
    match e
    case AddJob(job, callback, priority) =>
      && job !in s.added && priority < PRIORITIES && s.m.running && StartWorkers(s.m, priority) == NotifyAll
      && !(priority == LOW_PAUSABLE && s.m.paused) && !SomebodyAwake(WakeAll(s.workers))
    case Unpause =>
      && !SomebodyAwake(s.workers) && s.m.queue[LOW_PAUSABLE] != []
      && |s.m.processing| < MaxWorkers(s.m.hardware, LOW_PAUSABLE)
    case Run(i) =>
      i < |s.workers| &&
      (match s.workers[i]
       case Awake =>
         var p := PopBelow(s.m, PRIORITIES);
         s.m.running && p >= 0 && AnotherStartable(s.m, p) && !SomebodyAwake(s.workers[i := Gone])
       case InCallback(job) => StartableWithout(s.m, job) && !SomebodyAwake(s.workers)
       case _ => false)
    case _ => false
  }

  lemma AwakeKept(ws: seq<Worker>, wake: Wake)
    requires SomebodyAwake(ws) || wake == Spawn || (wake == NotifyAll && SomebodyAwake(WakeAll(ws)))
    ensures SomebodyAwake(Woken(ws, wake))
  {
    if SomebodyAwake(ws) {
      var i :| 0 <= i < |ws| && ws[i].Awake?;
      assert Woken(ws, wake)[i].Awake?;
    } else if wake == Spawn {
      assert Woken(ws, wake)[|ws|].Awake?;
    }
  }

  lemma AddServedIff(s: System, job: nat, callback: bool, priority: nat, a: Added)
    requires Tidy(s) && Served(s) && job !in s.added && priority < PRIORITIES && a == Add(s.m, job, callback, priority)
    ensures Served(System(a.m, Woken(s.workers, a.wake), s.added + [job]))
       <==> !LeavesUnserved(s, AddJob(job, callback, priority))
  {
    if SomebodyAwake(s.workers) || a.wake == Spawn || (a.wake == NotifyAll && SomebodyAwake(WakeAll(s.workers))) {
      AwakeKept(s.workers, a.wake);
      if SomebodyAwake(s.workers) {
        AwakeKept(s.workers, NotifyAll);
      }
    } else {
      assert !WorkToDo(s.m) && !SomebodyAwake(Woken(s.workers, a.wake));
      AddedIsOnlyChance(s.m, job, callback, priority);
    }
  }

  /** Only the new job can have become startable. */
  lemma AddedIsOnlyChance(m: Manager, job: nat, callback: bool, priority: nat)
    requires Shaped(m) && priority < PRIORITIES && !WorkToDo(m)
    ensures var a := Add(m, job, callback, priority);
            WorkToDo(a.m) <==> m.running && a.wake != NoWake && !(priority == LOW_PAUSABLE && m.paused)
  {
    var m' := Add(m, job, callback, priority).m;
    forall p: nat | p < PRIORITIES && p != priority ensures !CanPop(m', p) {
      assert !CanPop(m, p);
    }
    assert !CanPop(m, priority);
    assert m.running ==>
      (CanPop(m', priority) <==> StartWorkers(m, priority) != NoWake && !(priority == LOW_PAUSABLE && m.paused));
  }

  lemma UnpauseServedIff(s: System)
    requires Tidy(s) && Served(s)
    ensures Served(Step(s, Unpause)) <==> !LeavesUnserved(s, Unpause)
  {
    var m' := Step(s, Unpause).m;
    if !SomebodyAwake(s.workers) {
      forall p: nat | 0 < p < PRIORITIES ensures !CanPop(m', p) {
        assert !CanPop(s.m, p);
      }
      assert CanPop(m', LOW_PAUSABLE) <==>
        s.m.queue[LOW_PAUSABLE] != [] && |s.m.processing| < MaxWorkers(s.m.hardware, LOW_PAUSABLE);
    }
  }

  lemma SameChances(m: Manager, m': Manager)
    requires Shaped(m) && Shaped(m') && m'.queue == m.queue && m'.processing == m.processing
    requires m'.paused == m.paused && m'.hardware == m.hardware
    ensures WorkToDo(m') <==> WorkToDo(m)
  {
    assert forall p: nat | p < PRIORITIES :: CanPop(m', p) <==> CanPop(m, p);
  }

  /** Replacing one worker: who else is awake. */
  lemma AwakeUpdate(ws: seq<Worker>, i: nat, w: Worker)
    requires i < |ws|
    ensures SomebodyAwake(ws[i := w]) <==> w.Awake? || SomebodyAwake(ws[i := Gone])
    ensures SomebodyAwake(ws) <==> ws[i].Awake? || SomebodyAwake(ws[i := Gone])
  {
    var vs, us := ws[i := w], ws[i := Gone];
    if w.Awake? {
      assert vs[i].Awake?;
    }
    if ws[i].Awake? {
      assert ws[i].Awake?;
    }
    if SomebodyAwake(us) {
      var k :| 0 <= k < |us| && us[k].Awake?;
      assert vs[k].Awake? && ws[k].Awake?;
    }
    if SomebodyAwake(vs) && !w.Awake? {
      var k :| 0 <= k < |vs| && vs[k].Awake?;
      assert us[k].Awake?;
    }
    if SomebodyAwake(ws) && !ws[i].Awake? {
      var k :| 0 <= k < |ws| && ws[k].Awake?;
      assert us[k].Awake?;
    }
  }

  /** What can be started after a job was taken from queue `p`. */
  lemma PoppedChances(m: Manager, p: nat)
    requires Shaped(m) && p < PRIORITIES && m.queue[p] != []
    ensures WorkToDo(Popped(m, p)) <==> AnotherStartable(m, p)
  {
    var m' := Popped(m, p);
    forall q: nat | q < PRIORITIES ensures CanPop(m', q) <==> StartableBeside(m, p, q) {
      assert m'.queue[q] == if q == p then m.queue[q][1..] else m.queue[q];
    }
  }

  lemma {:induction false} ListedIsFound(items: seq<Item>, job: nat)
    ensures IndexOfJob(items, job) < |items| <==> exists i :: 0 <= i < |items| && items[i].job == job
  {
    if items != [] && items[0].job != job {
      ListedIsFound(items[1..], job);
      if i :| 0 <= i < |items| && items[i].job == job {
        assert items[1..][i - 1].job == job;
      }
    }
  }

  /** What can be started after a job finished. */
  lemma FinishedChances(m: Manager, job: nat)
    requires Shaped(m)
    ensures WorkToDo(Finished(m, job)) <==> StartableWithout(m, job)
  {
    var m' := Finished(m, job);
    ListedIsFound(m.processing, job);
    assert m'.queue == m.queue && |m'.processing| == |m.processing| - (if Listed(m, job) then 1 else 0);
    assert forall q: nat | q < PRIORITIES :: CanPop(m', q) <==> StartableAfter(m, job, q);
  }

  lemma RunServedIff(s: System, i: nat)
    requires Tidy(s) && Served(s) && i < |s.workers|
    ensures Served(RunWorker(s, i)) <==> !LeavesUnserved(s, Run(i))
  {
    var s' := RunWorker(s, i);
    AwakeUpdate(s.workers, i, s'.workers[i]);
    match s.workers[i] {
      case Awake =>
        if !s.m.running {
          assert !WorkToDo(s.m);
        } else if PopBelow(s.m, PRIORITIES) < 0 {
          assert !WorkToDo(s.m);
        } else {
          PoppedChances(s.m, PopBelow(s.m, PRIORITIES));
        }
      case InCallback(job) => FinishedChances(s.m, job);
      case _ => SameChances(s.m, s'.m);
    }
  }

  /** An event that neither moves a worker nor gives a job a new chance. */
  lemma FewerServed(s: System, m: Manager)
    requires Served(s) && Shaped(m) && forall p: nat | p < PRIORITIES :: CanPop(m, p) ==> CanPop(s.m, p)
    ensures Served(System(m, s.workers, s.added))
  {
    if !WorkToDo(s.m) {
      FewerChances(s.m, m);
    }
  }

  lemma CancelAllServed(s: System, m: Manager, ws: seq<Worker>)
    requires Shaped(s.m) && m == CancelAll(s.m)
    ensures Served(System(m, ws, s.added))
  {
    forall p: nat | p < PRIORITIES ensures !CanPop(m, p) {
    }
  }

  lemma CancelServed(s: System, m: Manager, id: nat)
    requires Served(s) && m == Cancel(s.m, id)
    ensures Served(System(m, s.workers, s.added))
  {
    FewerServed(s, m);
  }

  /** Somebody stays about to look for every startable job except after exactly these events. */
  lemma StepServedIff(s: System, e: Event)
    requires Tidy(s) && Served(s)
    ensures Served(Step(s, e)) <==> !LeavesUnserved(s, e)
  {
    match e {
      case AddJob(job, callback, priority) =>
        if job !in s.added && priority < PRIORITIES {
          AddServedIff(s, job, callback, priority, Add(s.m, job, callback, priority));
        }
      case CancelJob(id) => CancelServed(s, Cancel(s.m, id), id);
      case CancelJobs => CancelAllServed(s, CancelAll(s.m), WakeAll(s.workers));
      case Restart => FewerServed(s, s.m.(running := true));
      case Pause => FewerServed(s, s.m.(paused := true));
      case Unpause => UnpauseServedIff(s);
      case Run(i) =>
        if i < |s.workers| {
          RunServedIff(s, i);
        }
    }
  }

  // ---------------------------------------------------------------- runs that lose a wake-up

  /** unPauseJobs notifies nobody: wherever pausable jobs can run at all, the only worker sleeps on while
      one may be started. */
  lemma UnpauseWakesNobody(hardware: nat)
    requires MaxWorkers(hardware, LOW_PAUSABLE) > 0
    ensures var s := Step(Step(Step(Init(hardware), Pause), AddJob(7, true, LOW_PAUSABLE)), Run(0));
            Attended(s) && UnpausesAsleep(s, Unpause) && !Attended(Step(s, Unpause))
  {
    var s1 := Step(Step(Init(hardware), Pause), AddJob(7, true, LOW_PAUSABLE));
    assert s1.workers == [Awake];
    assert forall p | 0 < p < PRIORITIES :: s1.m.queue[p] == [];
    assert PopBelow(s1.m, PRIORITIES) == -1;
    var s2 := Step(s1, Run(0));
    assert s2.workers == [Asleep];
    forall p: nat | p < PRIORITIES ensures !CanPop(s2.m, p) {
    }
    assert s2.m.queue[LOW_PAUSABLE] == [Item(7, 1, LOW_PAUSABLE, true)];
    UnpauseAttendedIff(s2);
  }

  /** A restart before the last worker has gone counts on that worker: it leaves, and a new job waits
      with nobody to look for it. */
  lemma EarlyRestartLosesJob(hardware: nat)
    requires MaxWorkers(hardware, HIGH) > 0
    ensures var s := Step(Step(Step(Init(hardware), AddJob(1, true, HIGH)), CancelJobs), Run(0));
            var t := Step(Step(s, Restart), AddJob(7, true, HIGH));
            RestartsEarly(s, Restart) && Attended(t) && LastLeaves(t, Run(0)) && !Attended(Step(t, Run(0)))
  {
    var s1 := Step(Init(hardware), AddJob(1, true, HIGH));
    assert s1.workers == [Awake];
    var s2 := Step(s1, CancelJobs);
    assert s2.workers == [Awake];
    var s := Step(s2, Run(0));
    assert s.workers == [Leaving];
    assert s.workers[0].Leaving?;
    var t := Step(Step(s, Restart), AddJob(7, true, HIGH));
    assert t.workers == [Leaving];
    assert !Quiet(t.workers[0]);
    assert t.m.queue[HIGH] == [Item(7, 2, HIGH, true)];
    assert CanPop(t.m, HIGH);
    var u := Step(t, Run(0));
    assert u.workers == [Gone];
    assert CanPop(u.m, HIGH);
  }
}
