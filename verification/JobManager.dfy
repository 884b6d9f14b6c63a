/** The critical sections of src/thread/JobManager.cpp, each proved to do what its transition of the
    scheduler says. */
module JobManager {
  import opened Words
  import C = SchedulingClaims
  import S = Scheduling

  type Item = S.Item

  class JobManager {
    const hardware: nat
    var jobCounter: nat
    var pauseJobs: bool
    var running: bool
    const jobQueue: array<seq<Item>>
    var processing: seq<Item>
    var workers: nat
    var freed: seq<nat>

    ghost predicate Valid()
      reads this, jobQueue
    {
      jobQueue.Length == S.PRIORITIES && jobCounter < TWO32
    }

    /** The scheduler state these fields stand for. */
    ghost function Fields(): (m: S.Manager)
      reads this, jobQueue
      ensures Valid() ==> S.Shaped(m)
    {
      S.Manager(hardware, jobCounter, running, pauseJobs, jobQueue[..], processing, workers, freed)
    }

    constructor (hardware: nat)
      ensures Valid() && fresh(jobQueue) && Fields() == S.Init(hardware).m
    {
      this.hardware := hardware;
      jobCounter, running, pauseJobs := 0, true, false;
      jobQueue := new seq<Item>[S.PRIORITIES](_ => []);
      processing, workers, freed := [], 0, [];
      new;
      assert jobQueue[..] == seq(S.PRIORITIES, _ => []);
    }

    /** The manager takes the job over, or deletes it when it is stopped; `wake` is what becomes of the
        workers. */
    method AddJob(job: nat, callback: bool, priority: nat) returns (id: nat, wake: S.Wake)
      requires Valid() && priority < S.PRIORITIES
      modifies this, jobQueue
      ensures Valid() && S.Added(Fields(), id, wake) == S.Add(old(Fields()), job, callback, priority)
      ensures id == if !old(running) then 0 else if old(jobCounter) + 1 == TWO32 then 1 else old(jobCounter) + 1
      ensures id != 0 ==> freed == old(freed) && jobCounter == id
      ensures id != 0 ==> jobQueue[priority] == old(jobQueue[priority]) + [S.Item(job, id, priority, callback)]
      ensures id != 0 ==> forall p | 0 <= p < S.PRIORITIES && p != priority :: jobQueue[p] == old(jobQueue[p])
      ensures id == 0 ==> freed == old(freed) + [job] && jobQueue[..] == old(jobQueue[..]) && workers == old(workers)
      ensures wake != S.NoWake <==> id != 0 && |processing| < S.MaxWorkers(hardware, priority)
      ensures wake == S.Spawn <==> wake != S.NoWake && |processing| >= old(workers)
      ensures workers == old(workers) + (if wake == S.Spawn then 1 else 0)
    {
      if !running {
        freed := freed + [job];
        return 0, S.NoWake;
      }
      jobCounter := (jobCounter + 1) % TWO32;
      if jobCounter == 0 {
        jobCounter := jobCounter + 1;
      }
      jobQueue[priority] := jobQueue[priority] + [S.Item(job, jobCounter, priority, callback)];
      wake := StartWorkers(priority);
      id := jobCounter;
    }

    method StartWorkers(priority: nat) returns (wake: S.Wake)
      requires Valid() && priority < S.PRIORITIES
      modifies this`workers
      ensures wake == S.StartWorkers(old(Fields()), priority)
      ensures workers == old(workers) + (if wake == S.Spawn then 1 else 0)
    {
      if |processing| >= S.MaxWorkers(hardware, priority) {
        return S.NoWake;
      }
      if |processing| < workers {
        return S.NotifyAll;
      }
      workers := workers + 1;
      wake := S.Spawn;
    }

    /** Moves the next job to the processing list. */
    method PopJob() returns (found: bool, job: nat)
      requires Valid()
      modifies this`processing, jobQueue
      ensures Valid() && var p := S.PopBelow(old(Fields()), S.PRIORITIES);
              && found == (p >= 0)
              && (found ==> Fields() == S.Popped(old(Fields()), p) && job == old(jobQueue[..])[p][0].job)
              && (!found ==> Fields() == old(Fields()))
      ensures found ==> exists p: nat :: C.Taken(old(Fields()), Fields(), p) && job == old(jobQueue[..])[p][0].job
      ensures !found ==> forall p | 0 <= p < S.PRIORITIES :: !C.Admissible(Fields(), p)
    {
      C.PopIs(Fields());
      var n := S.PRIORITIES;
      while n > 0
        invariant 0 <= n <= S.PRIORITIES && S.PopBelow(Fields(), n) == S.PopBelow(Fields(), S.PRIORITIES)
        invariant Fields() == old(Fields())
      {
        var priority := n - 1;
        if !(priority == S.LOW_PAUSABLE && pauseJobs)
           && |jobQueue[priority]| > 0 && |processing| < S.MaxWorkers(hardware, priority)
        {
          var item := jobQueue[priority][0];
          jobQueue[priority] := jobQueue[priority][1..];
          processing := processing + [item];
          return true, item.job;
        }
        n := n - 1;
      }
      found, job := false, 0;
    }

    static method Find(items: seq<Item>, p: Item -> bool) returns (i: nat)
      ensures i == S.IndexWhere(items, p)
    {
      i := 0;
      assert items[0..] == items;
      while i < |items|
        invariant i <= |items| && S.IndexWhere(items, p) == i + S.IndexWhere(items[i..], p)
      {
        if p(items[i]) {
          return;
        }
        assert items[i..][1..] == items[i + 1..];
        i := i + 1;
      }
    }

    /** Deletes the first queued job with the number, from the lowest priority up. */
    method RemoveQueued(jobID: nat) returns (found: bool)
      requires Valid()
      modifies this`freed, jobQueue
      ensures Valid() && found == (S.QueueWithId(old(Fields()), jobID, 0) < S.PRIORITIES)
      ensures Fields() == if found then S.Cancel(old(Fields()), jobID) else old(Fields())
    {
      var priority := 0;
      while priority < S.PRIORITIES
        invariant priority <= S.PRIORITIES && Fields() == old(Fields())
        invariant S.QueueWithId(Fields(), jobID, 0) == S.QueueWithId(Fields(), jobID, priority)
      {
        var i := Find(jobQueue[priority], S.HasId(jobID));
        if i < |jobQueue[priority]| {
          freed := freed + [jobQueue[priority][i].job];
          jobQueue[priority] := S.Without(jobQueue[priority], i);
          return true;
        }
        priority := priority + 1;
      }
      found := false;
    }

    method CancelJob(jobID: nat)
      requires Valid()
      modifies this`processing, this`freed, jobQueue
      ensures Valid() && Fields() == S.Cancel(old(Fields()), jobID)
      ensures C.Cancelled(old(Fields()), Fields(), jobID)
    {
      C.CancelIs(Fields(), jobID);
      var found := RemoveQueued(jobID);
      if !found {
        var i := Find(processing, S.HasId(jobID));
        if i < |processing| {
          processing := processing[i := processing[i].(callback := false)];
        }
      }
    }

    /** Deletes the jobs of one queue, in order. */
    method FreeQueue(priority: nat)
      requires Valid() && priority < S.PRIORITIES
      modifies this`freed, jobQueue
      ensures jobQueue[..] == old(jobQueue[..])[priority := []]
      ensures freed == old(freed) + S.Jobs(old(jobQueue[priority]))
    {
      var items, i := jobQueue[priority], 0;
      assert items[..0] == [];
      while i < |items|
        invariant i <= |items| && freed == old(freed) + S.Jobs(items[..i]) && jobQueue[..] == old(jobQueue[..])
      {
        JobsNext(items, i);
        freed := freed + [items[i].job];
        i := i + 1;
      }
      assert items[..i] == items;
      jobQueue[priority] := [];
    }

    static lemma {:induction false} JobsNext(items: seq<Item>, i: nat)
      requires i < |items|
      ensures S.Jobs(items[..i + 1]) == S.Jobs(items[..i]) + [items[i].job]
    {
      if i > 0 {
        assert items[..i + 1][1..] == items[1..][..i] && items[..i][1..] == items[1..][..i - 1];
        JobsNext(items[1..], i - 1);
      } else {
        assert items[..1] == [items[0]] && items[..1][1..] == [];
      }
    }

    static lemma {:induction false} QueuedNext(queues: seq<seq<Item>>, i: nat)
      requires i < |queues|
      ensures S.QueuedJobs(queues[..i + 1]) == S.QueuedJobs(queues[..i]) + S.Jobs(queues[i])
    {
      if i > 0 {
        assert queues[..i + 1][1..] == queues[1..][..i] && queues[..i][1..] == queues[1..][..i - 1];
        QueuedNext(queues[1..], i - 1);
        var a, b, c := S.Jobs(queues[0]), S.QueuedJobs(queues[1..][..i - 1]), S.Jobs(queues[i]);
        assert a + (b + c) == (a + b) + c;
      } else {
        assert queues[..1] == [queues[0]] && queues[..1][1..] == [];
      }
    }

    /** Deletes the jobs of all queues, lowest priority first. */
    method FreeQueues()
      requires Valid()
      modifies this`freed, jobQueue
      ensures jobQueue[..] == seq(S.PRIORITIES, _ => []) && freed == old(freed) + S.QueuedJobs(old(jobQueue[..]))
    {
      ghost var before, queues := freed, jobQueue[..];
      var priority := 0;
      assert queues[..0] == [];
      while priority < S.PRIORITIES
        invariant 0 <= priority <= S.PRIORITIES && freed == before + S.QueuedJobs(queues[..priority])
        invariant forall p | 0 <= p < S.PRIORITIES :: jobQueue[p] == if p < priority then [] else queues[p]
      {
        QueuedNext(queues, priority);
        assert jobQueue[priority] == queues[priority];
        FreeQueue(priority);
        priority := priority + 1;
      }
      assert queues[..priority] == queues;
    }

    /** Deletes everything queued and takes every running job's callback away. */
    method CancelJobs()
      requires Valid()
      modifies this, jobQueue
      ensures Valid() && Fields() == S.CancelAll(old(Fields()))
      ensures C.AllCancelled(old(Fields()), Fields())
    {
      C.CancelAllIs(Fields());
      running := false;
      FreeQueues();
      DropCallbacks();
    }

    method DropCallbacks()
      modifies this`processing
      ensures processing == S.NoCallbacks(old(processing))
    {
      var i := 0;
      while i < |processing|
        invariant 0 <= i <= |processing| == |old(processing)|
        invariant forall k | 0 <= k < |processing| ::
                    processing[k] == if k < i then old(processing)[k].(callback := false) else old(processing)[k]
      {
        processing := processing[i := processing[i].(callback := false)];
        i := i + 1;
      }
    }

    /** The first half of onJobComplete: the item whose listener is told, if the job is still listed. */
    method BeginComplete(job: nat) returns (found: bool, item: Item)
      requires Valid()
      ensures found == (S.IndexOfJob(processing, job) < |processing|)
      ensures found ==> item == processing[S.IndexOfJob(processing, job)]
    {
      var i := Find(processing, S.HasJob(job));
      found := i < |processing|;
      item := if found then processing[i] else S.Item(job, 0, 0, false);
    }

    /** The second half: the job leaves the list. */
    method EndComplete(job: nat)
      requires Valid()
      modifies this`processing
      ensures Valid() && Fields() == S.Finished(old(Fields()), job)
    {
      var i := Find(processing, S.HasJob(job));
      if i < |processing| {
        processing := S.Without(processing, i);
      }
    }

    /** Deleting a finished job, outside the lock. */
    method FreeJob(job: nat)
      modifies this`freed
      ensures freed == old(freed) + [job]
    {
      freed := freed + [job];
    }

    /** A worker reports its job done, and nobody else comes in between: the three steps of a working
        thread. The first listing of the job goes and the job is deleted; its listener is told exactly
        when it still has one. An unlisted job is left alone. */
    method OnJobComplete(job: nat) returns (told: bool)
      requires Valid()
      modifies this`processing, this`freed
      ensures Valid()
      ensures var s := S.System(old(Fields()), [S.Working(job)], []);
              var last := if S.IndexOfJob(old(processing), job) < |old(processing)|
                          then S.RunWorker(S.RunWorker(S.RunWorker(s, 0), 0), 0) else S.RunWorker(s, 0);
              Fields() == last.m && last.workers == [S.Awake]
      ensures C.Completed(old(Fields()), Fields(), job, told)
    {
      C.IndexIsFirstJob(processing, job);
      var found, item := BeginComplete(job);
      told := found && item.callback;
      if found {
        EndComplete(job);
        FreeJob(item.job);
      }
    }

    method RemoveWorker()
      modifies this`workers
      ensures workers == if old(workers) > 0 then old(workers) - 1 else 0
    {
      if workers > 0 {
        workers := workers - 1;
      }
    }

    /** A worker looks for a job, up to where it has one, waits or is gone: what an awake thread does
        next in the scheduler. */
    method GetNextJob() returns (next: S.Worker)
      requires Valid()
      modifies this`processing, this`workers, jobQueue
      ensures Valid()
      ensures var s := S.RunWorker(S.System(old(Fields()), [S.Awake], []), 0);
              S.System(Fields(), [next], []) == if s.workers[0] == S.Leaving then S.RunWorker(s, 0) else s
      ensures next == S.Gone <==> !running
      ensures next == S.Asleep ==> forall p | 0 <= p < S.PRIORITIES :: !S.CanPop(Fields(), p)
      ensures next.Working? ==> |processing| == |old(processing)| + 1 && processing[|processing| - 1].job == next.job
    {
      if running {
        var found, job := PopJob();
        return if found then S.Working(job) else S.Asleep;
      }
      RemoveWorker();
      next := S.Gone;
    }
  }
}
