/** The client-side queue of src/thread/JobQueue.cpp: it hands at most `jobsAtOnce` jobs to the
    scheduler at a time, oldest or newest first. Whether the scheduler takes a job (it refuses, and
    deletes, all jobs once stopped) is a parameter, one answer a job offered. */
module JobQueue {
  import opened SchedulingOrder

  datatype Queue = Queue(
    lifo: bool,
    jobsAtOnce: nat,
    waiting: seq<nat>,     // m_jobQueue, front first; the next job is at the back
    processing: seq<nat>,
    submitted: seq<nat>,   // jobs the scheduler took, in order
    added: seq<nat>)       // jobs accepted by addJob, in order

  /** queueNextJob: offers jobs from the back until the scheduler takes one. */
  function QueueNext(q: Queue, answers: seq<bool>): Queue
    requires |answers| >= |q.waiting|
    decreases |q.waiting|
  {
    if q.waiting == [] || |q.processing| >= q.jobsAtOnce then q
    else
      var n := |q.waiting| - 1;
      var job, rest := q.waiting[n], q.(waiting := q.waiting[..n]);
      if answers[0] then rest.(processing := q.processing + [job], submitted := q.submitted + [job])
      else QueueNext(rest, answers[1..])
  }

  function IndexOf(s: seq<nat>, job: nat): (i: nat)
    ensures i <= |s| && (i < |s| <==> job in s) && (i < |s| ==> s[i] == job)
  {
    if s == [] || s[0] == job then 0 else 1 + IndexOf(s[1..], job)
  }

  function Remove(s: seq<nat>, job: nat): seq<nat> {
    var i := IndexOf(s, job);
    if i < |s| then s[..i] + s[i + 1..] else s
  }

  /** The first occurrence of the job is gone; a list without it stays. */
  ghost predicate FirstOut(s: seq<nat>, t: seq<nat>, job: nat) {
    && (job !in s ==> t == s)
    && (job in s ==> exists i | 0 <= i < |s| :: s[i] == job && job !in s[..i] && t == s[..i] + s[i + 1..])
  }

  lemma {:induction false} FirstIndex(s: seq<nat>, job: nat)
    ensures job !in s[..IndexOf(s, job)]
  {
    if s != [] && s[0] != job {
      FirstIndex(s[1..], job);
      var i := IndexOf(s[1..], job);
      assert s[..i + 1] == [s[0]] + s[1..][..i];
    }
  }

  lemma RemoveIsFirstOut(s: seq<nat>, job: nat)
    ensures FirstOut(s, Remove(s, job), job)
  {
    FirstIndex(s, job);
  }

  /** The first `k` answers are refusals. */
  ghost predicate Refused(answers: seq<bool>, k: nat) {
    k <= |answers| && forall a | 0 <= a < k :: !answers[a]
  }

  /** What one round of offers promises. Without a job waiting or a free slot nothing happens. Else jobs go
      from the back: the scheduler refuses `k` of them, which are lost, and takes the next, which is
      submitted; or it refuses them all. */
  ghost predicate Offered(q: Queue, q': Queue, answers: seq<bool>) {
    var n := |q.waiting|;
    if n == 0 || |q.processing| >= q.jobsAtOnce then q' == q
    else exists k: nat :: k <= n && Refused(answers, k) && OfferedAt(q, q', answers, k)
  }

  predicate OfferedAt(q: Queue, q': Queue, answers: seq<bool>, k: nat)
    requires k <= |q.waiting|
  {
    if k == |q.waiting| then q' == q.(waiting := [])
    else
      var next := |q.waiting| - 1 - k;
      var job := q.waiting[next];
      && k < |answers| && answers[k] && q' == q.(waiting := q.waiting[..next],
           processing := q.processing + [job], submitted := q.submitted + [job])
  }

  /** One refusal more, in front. */
  lemma RefusedOneMore(q: Queue, rest: Queue, q': Queue, answers: seq<bool>, k: nat)
    requires q.waiting != [] && rest == q.(waiting := q.waiting[..|q.waiting| - 1]) && k <= |rest.waiting|
    requires |answers| > 0 && !answers[0] && Refused(answers[1..], k) && OfferedAt(rest, q', answers[1..], k)
    ensures Refused(answers, k + 1) && OfferedAt(q, q', answers, k + 1)
  {
    forall a | 0 <= a < k + 1 ensures !answers[a] {
      assert a > 0 ==> answers[a] == answers[1..][a - 1];
    }
    if k < |rest.waiting| {
      var next := |q.waiting| - 2 - k;
      assert rest.waiting[..next] == q.waiting[..next];
    }
  }

  lemma {:induction false} QueueNextIs(q: Queue, answers: seq<bool>)
    requires |answers| >= |q.waiting|
    ensures Offered(q, QueueNext(q, answers), answers)
    decreases |q.waiting|
  {
    if q.waiting != [] && |q.processing| < q.jobsAtOnce {
      var q' := QueueNext(q, answers);
      if answers[0] {
        assert Refused(answers, 0) && OfferedAt(q, q', answers, 0);
      } else if |q.waiting| == 1 {
        assert q.waiting[..0] == [];
        assert QueueNext(q.(waiting := []), answers[1..]) == q.(waiting := []);
        assert Refused(answers, 1) && OfferedAt(q, q', answers, 1);
      } else {
        var rest := q.(waiting := q.waiting[..|q.waiting| - 1]);
        QueueNextIs(rest, answers[1..]);
        var k: nat :| k <= |rest.waiting| && Refused(answers[1..], k) && OfferedAt(rest, q', answers[1..], k);
        RefusedOneMore(q, rest, q', answers, k);
      }
    }
  }

  /** A job known already is refused; others wait at the end their order asks for. */
  function Enqueued(q: Queue, job: nat): Queue {
    q.(waiting := if q.lifo then q.waiting + [job] else [job] + q.waiting, added := q.added + [job])
  }

  datatype Event = AddJob(job: nat, answers: seq<bool>) | Notify(job: nat, answers: seq<bool>) | CancelJob(job: nat)

  predicate Answered(q: Queue, e: Event) {
    match e
    case AddJob(_, answers) => |answers| > |q.waiting|
    case Notify(_, answers) => |answers| >= |q.waiting|
    case CancelJob(_) => true
  }

  function Step(q: Queue, e: Event): Queue
    requires Answered(q, e)
  {
    match e
    case AddJob(job, answers) =>
      if job in q.waiting || job in q.processing then q else QueueNext(Enqueued(q, job), answers)
    case Notify(job, answers) => QueueNext(q.(processing := Remove(q.processing, job)), answers)
    case CancelJob(job) =>
      if job in q.processing then q.(processing := Remove(q.processing, job))
      else q.(waiting := Remove(q.waiting, job))
  }

  // ---------------------------------------------------------------- the class

  class JobQueue {
    const lifo: bool
    const jobsAtOnce: nat
    var jobQueue: seq<nat>
    var processing: seq<nat>
    ghost var submitted: seq<nat>
    ghost var added: seq<nat>

    ghost function Fields(): Queue
      reads this
    {
      Queue(lifo, jobsAtOnce, jobQueue, processing, submitted, added)
    }

    constructor (lifo: bool, jobsAtOnce: nat)
      ensures Fields() == Queue(lifo, jobsAtOnce, [], [], [], [])
    {
      this.lifo, this.jobsAtOnce := lifo, jobsAtOnce;
      jobQueue, processing, submitted, added := [], [], [], [];
    }

    method QueueNextJob(answers: seq<bool>)
      requires |answers| >= |jobQueue|
      modifies this
      ensures Fields() == QueueNext(old(Fields()), answers)
      ensures Offered(old(Fields()), Fields(), answers)
    {
      QueueNextIs(Fields(), answers);
      var i := 0;
      assert answers[0..] == answers;
      while |jobQueue| > 0 && |processing| < jobsAtOnce
        invariant 0 <= i <= |answers| && |answers| - i >= |jobQueue|
        invariant QueueNext(Fields(), answers[i..]) == QueueNext(old(Fields()), answers)
        decreases |jobQueue|
      {
        var n := |jobQueue| - 1;
        var job := jobQueue[n];
        assert answers[i..][1..] == answers[i + 1..];
        if answers[i] {
          processing, jobQueue := processing + [job], jobQueue[..n];
          submitted := submitted + [job];
          return;
        }
        jobQueue, i := jobQueue[..n], i + 1;
      }
    }

    /** False, and the job deleted, when it is queued or being processed already. */
    method AddJob(job: nat, answers: seq<bool>) returns (ok: bool)
      requires |answers| > |jobQueue|
      modifies this
      ensures ok == (job !in old(jobQueue) && job !in old(processing))
      ensures Fields() == Step(old(Fields()), Event.AddJob(job, answers))
      ensures !ok ==> Fields() == old(Fields())
      ensures ok ==>
                var line := if lifo then old(jobQueue) + [job] else [job] + old(jobQueue);
                Offered(old(Fields()).(waiting := line, added := old(added) + [job]), Fields(), answers)
    {
      if job in jobQueue || job in processing {
        return false;
      }
      jobQueue := if lifo then jobQueue + [job] else [job] + jobQueue;
      added := added + [job];
      QueueNextJob(answers);
      ok := true;
    }

    method OnJobNotify(job: nat, answers: seq<bool>)
      requires |answers| >= |jobQueue|
      modifies this
      ensures Fields() == Step(old(Fields()), Notify(job, answers))
      ensures exists left :: FirstOut(old(processing), left, job)
                && Offered(old(Fields()).(processing := left), Fields(), answers)
    {
      RemoveIsFirstOut(processing, job);
      if job in processing {
        processing := Remove(processing, job);
      }
      QueueNextJob(answers);
    }

    method CancelJob(job: nat)
      modifies this
      ensures Fields() == Step(old(Fields()), Event.CancelJob(job))
      ensures FirstOut(old(processing), processing, job) && submitted == old(submitted) && added == old(added)
      ensures job in old(processing) ==> jobQueue == old(jobQueue)
      ensures job !in old(processing) ==> FirstOut(old(jobQueue), jobQueue, job)
    {
      RemoveIsFirstOut(processing, job);
      RemoveIsFirstOut(jobQueue, job);
      if job in processing {
        processing := Remove(processing, job);
        return;
      }
      if job in jobQueue {
        jobQueue := Remove(jobQueue, job);
      }
    }
  }

  // ---------------------------------------------------------------- what every run keeps

  ghost predicate Transition(q: Queue, q': Queue) {
    exists e: Event :: Fresh(q, e) && q' == Step(q, e)
  }

  /** Every call has the answers it needs, and jobs added are new ones or known ones. */
  ghost predicate Fresh(q: Queue, e: Event) {
    Answered(q, e) && (e.AddJob? && e.job in q.added ==> e.job in q.waiting || e.job in q.processing)
  }

  ghost predicate Run(run: seq<Queue>) {
    && |run| > 0 && run[0] == Queue(run[0].lifo, run[0].jobsAtOnce, [], [], [], [])
    && forall k | 0 <= k < |run| - 1 :: Transition(run[k], run[k + 1])
  }

  /** At most `jobsAtOnce` jobs run. Waiting jobs stand in the order they were added, the next one to
      go at the back; first-in-first-out queues have submitted only jobs older than those waiting, in
      order. */
  ghost predicate Inv(q: Queue) {
    && |q.processing| <= q.jobsAtOnce
    && InLine(q.added, q.waiting, q.lifo)
    && (!q.lifo ==> InLine(q.added, q.submitted, true) && Before(q.added, q.submitted, q.waiting))
  }

  /** Known jobs, by age: the oldest in front when `rising`, else at the back. */
  ghost predicate InLine(added: seq<nat>, s: seq<nat>, rising: bool) {
    && (forall i | 0 <= i < |s| :: s[i] in added)
    && (forall i, j | 0 <= i < j < |s| ::
          if rising then Rank(added, s[i]) < Rank(added, s[j]) else Rank(added, s[j]) < Rank(added, s[i]))
  }

  ghost predicate Before(added: seq<nat>, s: seq<nat>, t: seq<nat>) {
    forall i, j | 0 <= i < |s| && 0 <= j < |t| :: Rank(added, s[i]) < Rank(added, t[j])
  }

  lemma {:induction false} NextKeepsInv(q: Queue, answers: seq<bool>)
    requires Inv(q) && |answers| >= |q.waiting|
    ensures Inv(QueueNext(q, answers))
    decreases |q.waiting|
  {
    if q.waiting != [] && |q.processing| < q.jobsAtOnce {
      var rest := q.(waiting := q.waiting[..|q.waiting| - 1]);
      DropKeepsInv(q, rest);
      if answers[0] {
        TakeKeepsInv(q, rest, q.waiting[|q.waiting| - 1]);
      } else {
        NextKeepsInv(rest, answers[1..]);
      }
    }
  }

  lemma DropKeepsInv(q: Queue, rest: Queue)
    requires Inv(q) && q.waiting != [] && rest == q.(waiting := q.waiting[..|q.waiting| - 1])
    ensures Inv(rest)
  {
  }

  lemma TakeKeepsInv(q: Queue, rest: Queue, job: nat)
    requires Inv(q) && q.waiting != [] && rest == q.(waiting := q.waiting[..|q.waiting| - 1])
    requires Inv(rest) && |q.processing| < q.jobsAtOnce && job == q.waiting[|q.waiting| - 1]
    ensures Inv(rest.(processing := q.processing + [job], submitted := q.submitted + [job]))
  {
  }

  lemma InLineLater(added: seq<nat>, s: seq<nat>, rising: bool, job: nat)
    requires InLine(added, s, rising)
    ensures InLine(added + [job], s, rising)
    ensures forall i | 0 <= i < |s| :: Rank(added + [job], s[i]) == Rank(added, s[i]) < |added|
  {
    forall i | 0 <= i < |s| ensures Rank(added + [job], s[i]) == Rank(added, s[i]) < |added| {
      RankKept(added, s[i], job);
    }
  }

  /** The newest job goes in front of a falling line and behind a rising one. */
  lemma InLineNewest(added: seq<nat>, s: seq<nat>, job: nat)
    requires job !in added
    ensures InLine(added, s, false) ==> InLine(added + [job], [job] + s, false)
    ensures InLine(added, s, true) ==> InLine(added + [job], s + [job], true)
  {
    RankNew(added, job);
    if InLine(added, s, false) {
      InLineLater(added, s, false, job);
      FallsFrom(added + [job], s, job);
    }
    if InLine(added, s, true) {
      InLineLater(added, s, true, job);
    }
  }

  lemma FallsFrom(added: seq<nat>, s: seq<nat>, job: nat)
    requires InLine(added, s, false) && job in added && forall i | 0 <= i < |s| :: Rank(added, s[i]) < Rank(added, job)
    ensures InLine(added, [job] + s, false)
  {
    var t := [job] + s;
    assert t[0] == job && t[1..] == s;
    forall i | 0 <= i < |t| ensures t[i] in added {
      if i > 0 {
        assert t[i] == s[i - 1];
      }
    }
    forall i, j | 0 <= i < j < |t| ensures Rank(added, t[j]) < Rank(added, t[i]) {
      assert t[j] == s[j - 1];
      if i > 0 {
        assert t[i] == s[i - 1];
      }
    }
  }

  lemma EnqueueKeepsInv(q: Queue, job: nat)
    requires Inv(q) && job !in q.added
    ensures Inv(Enqueued(q, job))
  {
    InLineNewest(q.added, q.waiting, job);
    if !q.lifo {
      InLineLater(q.added, q.submitted, true, job);
      InLineLater(q.added, q.waiting, false, job);
      RankNew(q.added, job);
      BeforeNewest(q.added + [job], q.submitted, q.waiting, job);
    }
  }

  lemma BeforeNewest(added: seq<nat>, s: seq<nat>, t: seq<nat>, job: nat)
    requires Before(added, s, t) && forall i | 0 <= i < |s| :: Rank(added, s[i]) < Rank(added, job)
    ensures Before(added, s, [job] + t)
  {
    var u := [job] + t;
    forall i, j | 0 <= i < |s| && 0 <= j < |u| ensures Rank(added, s[i]) < Rank(added, u[j]) {
      assert j > 0 ==> u[j] == t[j - 1];
    }
  }

  lemma RemoveKeepsInLine(added: seq<nat>, s: seq<nat>, rising: bool, job: nat)
    requires InLine(added, s, rising)
    ensures InLine(added, Remove(s, job), rising)
    ensures forall i | 0 <= i < |Remove(s, job)| :: Remove(s, job)[i] in s
  {
    var n, t := IndexOf(s, job), Remove(s, job);
    if n < |s| {
      assert t == s[..n] + s[n + 1..];
      forall i | 0 <= i < |t| ensures t[i] == s[if i < n then i else i + 1] {
      }
    }
  }

  lemma CancelKeepsInv(q: Queue, job: nat)
    requires Inv(q)
    ensures Inv(Step(q, CancelJob(job)))
  {
    RemoveKeepsInLine(q.added, q.waiting, q.lifo, job);
    if !q.lifo {
      var t := Remove(q.waiting, job);
      forall i, j | 0 <= i < |q.submitted| && 0 <= j < |t| ensures Rank(q.added, q.submitted[i]) < Rank(q.added, t[j]) {
        var k :| 0 <= k < |q.waiting| && q.waiting[k] == t[j];
      }
    }
  }

  lemma StepKeepsInv(q: Queue, e: Event)
    requires Inv(q) && Fresh(q, e)
    ensures Inv(Step(q, e))
  {
    match e {
      case AddJob(job, answers) =>
        if job !in q.waiting && job !in q.processing {
          EnqueueKeepsInv(q, job);
          NextKeepsInv(Enqueued(q, job), answers);
        }
      case Notify(job, answers) => NextKeepsInv(q.(processing := Remove(q.processing, job)), answers);
      case CancelJob(job) => CancelKeepsInv(q, job);
    }
  }

  /** In every run at most `jobsAtOnce` jobs are with the scheduler, and a first-in-first-out queue
      submits jobs in the order they were added. */
  lemma {:induction false} RunHasInv(run: seq<Queue>, k: nat)
    requires Run(run) && k < |run|
    ensures Inv(run[k])
  {
    if k > 0 {
      RunHasInv(run, k - 1);
      assert Transition(run[k - 1], run[k]);
      var e: Event :| Fresh(run[k - 1], e) && run[k] == Step(run[k - 1], e);
      StepKeepsInv(run[k - 1], e);
    }
  }

  /** In every run the job at the back, the next to be offered, is the newest waiting in a
      last-in-first-out queue and the oldest waiting in a first-in-first-out one. */
  lemma NextInTurn(run: seq<Queue>, k: nat, i: nat)
    requires Run(run) && k < |run| && i < |run[k].waiting| - 1
    ensures var added, next := run[k].added, run[k].waiting[|run[k].waiting| - 1];
            if run[k].lifo then Rank(added, run[k].waiting[i]) < Rank(added, next)
            else Rank(added, next) < Rank(added, run[k].waiting[i])
  {
    RunHasInv(run, k);
  }

  // ---------------------------------------------------------------- idle slots

  /** Nothing waits while a slot is free. */
  ghost predicate Busy(q: Queue) {
    q.waiting == [] || |q.processing| == q.jobsAtOnce
  }

  /** The event takes a running job away while others wait: cancelJob offers nothing in its place. */
  ghost predicate CancelsRunning(q: Queue, e: Event) {
    e.CancelJob? && e.job in q.processing && q.waiting != []
  }

  /** Offering goes on until a job is taken or nothing waits, whatever the scheduler answers. */
  lemma {:induction false} NextFillsSlot(q: Queue, answers: seq<bool>)
    requires |answers| >= |q.waiting|
    requires q.waiting == [] || q.jobsAtOnce - 1 <= |q.processing| <= q.jobsAtOnce
    ensures Busy(QueueNext(q, answers))
    decreases |q.waiting|
  {
    if q.waiting != [] && |q.processing| < q.jobsAtOnce && !answers[0] {
      NextFillsSlot(q.(waiting := q.waiting[..|q.waiting| - 1]), answers[1..]);
    }
  }

  /** Nothing was waiting, so the one new job is taken or refused. */
  lemma AddStaysBusy(q: Queue, job: nat, answers: seq<bool>)
    requires Inv(q) && Busy(q) && |answers| > |q.waiting|
    ensures Busy(QueueNext(Enqueued(q, job), answers))
  {
    if q.waiting != [] {
      NextFillsSlot(Enqueued(q, job), answers);
    }
  }

  /** No slot idles after a call exactly when the call does not cancel a running job while others
      wait; refusals by the scheduler do no harm. */
  lemma StepBusyIff(q: Queue, e: Event)
    requires Inv(q) && Busy(q) && Fresh(q, e)
    ensures Busy(Step(q, e)) <==> !CancelsRunning(q, e)
  {
    match e {
      case AddJob(job, answers) => AddStaysBusy(q, job, answers);
      case Notify(job, answers) => NextFillsSlot(q.(processing := Remove(q.processing, job)), answers);
      case CancelJob(_) =>
    }
  }

  /** A run with the events that led through it. */
  ghost predicate RunBy(run: seq<Queue>, events: seq<Event>) {
    && Run(run) && |events| == |run| - 1
    && forall k | 0 <= k < |events| :: Fresh(run[k], events[k]) && run[k + 1] == Step(run[k], events[k])
  }

  lemma {:induction false} BusyUpTo(run: seq<Queue>, events: seq<Event>, k: nat)
    requires RunBy(run, events) && k < |run|
    requires forall l | 0 <= l < |events| :: !CancelsRunning(run[l], events[l])
    ensures Busy(run[k])
  {
    if k > 0 {
      BusyUpTo(run, events, k - 1);
      RunHasInv(run, k - 1);
      StepBusyIff(run[k - 1], events[k - 1]);
      assert run[k - 1 + 1] == Step(run[k - 1], events[k - 1]);
    }
  }

  /** Over a whole run no slot ever idles while jobs wait exactly when no running job is cancelled
      while others wait. */
  lemma NoSlotIdlesIff(run: seq<Queue>, events: seq<Event>)
    requires RunBy(run, events)
    ensures (forall k | 0 <= k < |run| :: Busy(run[k]))
            <==> (forall k | 0 <= k < |events| :: !CancelsRunning(run[k], events[k]))
  {
    if forall k | 0 <= k < |events| :: !CancelsRunning(run[k], events[k]) {
      forall k | 0 <= k < |run| ensures Busy(run[k]) {
        BusyUpTo(run, events, k);
      }
    } else {
      var k :| 0 <= k < |events| && CancelsRunning(run[k], events[k]);
      RunHasInv(run, k);
      if Busy(run[k]) {
        StepBusyIff(run[k], events[k]);
        assert !Busy(run[k + 1]);
      }
    }
  }
}
