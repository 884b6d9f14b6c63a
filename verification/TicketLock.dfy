/** The ticket spin lock of src/common/spinlock.cpp used through LockGuard by any number of threads.
    One transition is one atomic operation or one pause of one thread; the two counters and the
    tickets are 32-bit words, the histories `order` and `entered` record who took a ticket and who
    came in. */
module TicketLock {
  import opened Words

  datatype Thread =
    | Outside
    | Ticketed(ticket: nat)             // load of m_next pending
    | Pausing(ticket: nat, left: nat)   // spinning before the next load
    | Inside(ticket: nat)

  datatype State = State(ticket: nat, next: nat, threads: seq<Thread>, order: seq<nat>, entered: seq<nat>,
    released: nat)

  function Init(n: nat): State {
    State(0, 0, seq(n, _ => Outside), [], [], 0)
  }

  /** The next operation of thread `i`: take a ticket, look at m_next, pause, or leave. */
  function Step(s: State, i: nat): State {
    if i >= |s.threads| then s
    else match s.threads[i]
      case Outside =>
        s.(ticket := Word(s.ticket + 1), threads := s.threads[i := Ticketed(s.ticket)], order := s.order + [i])
      case Ticketed(t) =>
        var position := (t - s.next) % TWO32;
        if position == 0 then s.(threads := s.threads[i := Inside(t)], entered := s.entered + [i])
        else s.(threads := s.threads[i := Pausing(t, position)])
      case Pausing(t, left) =>
        // do { pause } while (--position != 0)
        if left <= 1 then s.(threads := s.threads[i := Ticketed(t)])
        else s.(threads := s.threads[i := Pausing(t, left - 1)])
      case Inside(t) =>
        s.(next := Word(t + 1), threads := s.threads[i := Outside], released := s.released + 1)
  }

  /** Runs of up to 2^32 threads, so up to 2^32 tickets outstanding. */
  ghost predicate Run(run: seq<State>) {
    && |run| > 0
    && (exists n: nat :: n <= TWO32 && run[0] == Init(n))
    && (forall k | 0 <= k < |run| - 1 :: Transition(run[k], run[k + 1]))
  }

  ghost predicate Transition(s: State, s': State) {
    exists i: nat :: s' == Step(s, i)
  }

  // ---------------------------------------------------------------- the invariant

  /** The ticket numbers not yet released, the oldest first, and who holds them. */
  ghost predicate Holders(s: State) {
    && s.released <= |s.order| && |s.threads| <= TWO32
    && (forall k | s.released <= k < |s.order| :: Holds(s, k))
    && (forall k, l | s.released <= k < l < |s.order| :: s.order[k] != s.order[l])
    && (forall i | 0 <= i < |s.threads| && s.threads[i] != Outside :: Live(s, i))
  }

  /** The thread that took ticket number `k` is in the lock with that number's word. */
  ghost predicate Holds(s: State, k: nat)
    requires k < |s.order|
  {
    var i := s.order[k];
    i < |s.threads| && s.threads[i] != Outside && s.threads[i].ticket == Word(k)
    && (s.threads[i].Inside? ==> k == s.released)
  }

  ghost predicate Live(s: State, i: nat) {
    exists k :: s.released <= k < |s.order| && s.order[k] == i
  }

  /** Whether the oldest ticket's thread is inside. */
  ghost predicate Busy(s: State) {
    s.released < |s.order| && s.order[s.released] < |s.threads| && s.threads[s.order[s.released]].Inside?
  }

  ghost predicate Inv(s: State) {
    && Holders(s)
    && s.ticket == Word(|s.order|) && s.next == Word(s.released)
    && s.entered == s.order[..s.released + (if Busy(s) then 1 else 0)]
  }

  /** Outstanding tickets are of different threads, so fewer than 2^32 apart. */
  lemma OutstandingBound(s: State)
    requires Holders(s)
    ensures |s.order| - s.released <= |s.threads|
  {
    var ids := s.order[s.released..];
    forall k | 0 <= k < |ids| ensures ids[k] in Below(|s.threads|) {
      assert Holds(s, s.released + k);
    }
    DistinctCount(ids, Below(|s.threads|));
  }

  ghost function Below(n: nat): (r: set<nat>)
    ensures |r| == n && forall i :: i in r <==> 0 <= i < n
  {
    if n == 0 then {} else Below(n - 1) + {n - 1}
  }

  lemma {:induction false} DistinctCount(ids: seq<nat>, all: set<nat>)
    requires forall k | 0 <= k < |ids| :: ids[k] in all
    requires forall k, l | 0 <= k < l < |ids| :: ids[k] != ids[l]
    ensures |ids| <= |all|
  {
    if ids != [] {
      DistinctCount(ids[1..], all - {ids[0]});
    }
  }

  /** A waiting thread sees position 0 exactly when its ticket is the oldest. */
  lemma SeesItsTurn(s: State, k: nat)
    requires Inv(s) && s.released <= k < |s.order|
    ensures (Word(k) - s.next) % TWO32 == 0 <==> k == s.released
  {
    OutstandingBound(s);
    WordOffset(k, s.released);
  }

  lemma TicketNumber(s: State, i: nat) returns (k: nat)
    requires Inv(s) && i < |s.threads| && s.threads[i] != Outside
    ensures s.released <= k < |s.order| && s.order[k] == i && Holds(s, k)
  {
    assert Live(s, i);
    k :| s.released <= k < |s.order| && s.order[k] == i;
    assert Holds(s, k);
  }

  lemma InitHasInv(n: nat)
    requires n <= TWO32
    ensures Inv(Init(n))
  {
  }

  lemma TakeKeepsHolders(s: State, s': State, i: nat, w: nat)
    requires Holders(s) && i < |s.threads| && s.threads[i].Outside?
    requires s' == s.(ticket := w, threads := s.threads[i := Ticketed(Word(|s.order|))], order := s.order + [i])
    ensures Holders(s') && Busy(s') == Busy(s)
  {
    var n := |s.order|;
    forall k | s.released <= k < n ensures s.order[k] != i && Holds(s', k) {
      assert Holds(s, k);
    }
    assert Holds(s', n);
    forall k, l | s.released <= k < l < n + 1 ensures s'.order[k] != s'.order[l] {
    }
    forall j | 0 <= j < |s'.threads| && s'.threads[j] != Outside ensures Live(s', j) {
      if j == i {
        assert s'.order[n] == i;
      } else {
        assert Live(s, j);
        var k :| s.released <= k < n && s.order[k] == j;
        assert s'.order[k] == j;
      }
    }
  }

  lemma StepTakes(s: State, i: nat)
    requires Inv(s) && i < |s.threads| && s.threads[i].Outside?
    ensures Inv(Step(s, i))
  {
    TakeKeepsHolders(s, Step(s, i), i, Word(s.ticket + 1));
    TicketWord(|s.order|);
  }

  lemma TicketWord(n: nat)
    ensures Word(Word(n) + 1) == Word(n + 1)
  {
    var q := n / TWO32;
    assert n + 1 == q * TWO32 + (Word(n) + 1);
    ModShift(Word(n) + 1, q);
  }

  lemma StepWaits(s: State, i: nat)
    requires Inv(s) && i < |s.threads| && (s.threads[i].Ticketed? || s.threads[i].Pausing?)
    ensures Inv(Step(s, i))
  {
    var s' := Step(s, i);
    var n := TicketNumber(s, i);
    SeesItsTurn(s, n);
    forall k | s.released <= k < |s.order| ensures Holds(s', k) {
      assert Holds(s, k);
    }
    forall j | 0 <= j < |s'.threads| && s'.threads[j] != Outside ensures Live(s', j) {
      assert Live(s, j);
    }
    assert s'.threads[i].Inside? ==> s'.entered == s.order[..s.released] + [s.order[s.released]];
  }

  lemma StepLeaves(s: State, i: nat)
    requires Inv(s) && i < |s.threads| && s.threads[i].Inside?
    ensures Inv(Step(s, i))
  {
    var s' := Step(s, i);
    var n := TicketNumber(s, i);
    TicketWord(n);
    forall k | s'.released <= k < |s.order| ensures Holds(s', k) && !s'.threads[s.order[k]].Inside? {
      assert Holds(s, k);
    }
    forall j | 0 <= j < |s'.threads| && s'.threads[j] != Outside ensures Live(s', j) {
      var k := TicketNumber(s, j);
      assert s'.order[k] == j;
    }
  }

  lemma StepKeepsInv(s: State, i: nat)
    requires Inv(s)
    ensures Inv(Step(s, i))
  {
    if i < |s.threads| {
      match s.threads[i] {
        case Outside => StepTakes(s, i);
        case Inside(_) => StepLeaves(s, i);
        case _ => StepWaits(s, i);
      }
    }
  }

  lemma {:induction false} RunHasInv(run: seq<State>, k: nat)
    requires Run(run) && k < |run|
    ensures Inv(run[k])
  {
    if k == 0 {
      var n: nat :| n <= TWO32 && run[0] == Init(n);
      InitHasInv(n);
    } else {
      RunHasInv(run, k - 1);
      assert Transition(run[k - 1], run[k]);
      var i: nat :| run[k] == Step(run[k - 1], i);
      StepKeepsInv(run[k - 1], i);
    }
  }

  // ---------------------------------------------------------------- theorems

  /** In every interleaving at most one thread is inside. */
  lemma MutualExclusion(run: seq<State>, k: nat, i: nat, j: nat)
    requires Run(run) && k < |run| && i < |run[k].threads| && j < |run[k].threads|
    requires run[k].threads[i].Inside? && run[k].threads[j].Inside?
    ensures i == j
  {
    var s := run[k];
    RunHasInv(run, k);
    var a := TicketNumber(s, i);
    var b := TicketNumber(s, j);
  }

  /** Threads come in in the order in which they took their tickets, none is passed over, and at most
      the one inside has come in but not left. */
  lemma ServedInOrder(run: seq<State>, k: nat)
    requires Run(run) && k < |run|
    ensures run[k].entered <= run[k].order
    ensures |run[k].entered| - 1 <= run[k].released <= |run[k].entered|
  {
    RunHasInv(run, k);
  }

  /** Whoever waits with the oldest ticket while nobody is inside. */
  ghost predicate FirstInLine(s: State, i: nat) {
    s.released < |s.order| && s.order[s.released] == i && i < |s.threads|
      && (s.threads[i].Ticketed? || s.threads[i].Pausing?)
  }

  /** Leaving always enables the thread with the next ticket, if one was taken: its next look at
      m_next lets it in. */
  lemma ReleaseEnablesNext(run: seq<State>, k: nat, i: nat)
    requires Run(run) && k < |run| && i < |run[k].threads| && run[k].threads[i].Inside?
    ensures var s, s' := run[k], Step(run[k], i);
            |s.order| > s.released + 1 ==>
              var next := s.order[s.released + 1];
              && FirstInLine(s', next)
              && (s'.threads[next].Ticketed? ==> Step(s', next).threads[next].Inside?)
  {
    var s, s' := run[k], Step(run[k], i);
    RunHasInv(run, k);
    StepLeaves(s, i);
    var n := TicketNumber(s, i);
    if |s.order| > n + 1 {
      assert Holds(s', n + 1);
      SeesItsTurn(s', n + 1);
    }
  }

  /** Steps of its own that a waiting thread needs before its next look at m_next. */
  function PausesLeft(t: Thread): nat {
    match t
    case Pausing(_, left) => if left <= 1 then 1 else left
    case _ => 0
  }

  /** No interleaving is stuck: while tickets are outstanding, somebody is inside or the thread with
      the oldest ticket comes in at its next look, which is a bounded number of its own steps away. */
  lemma NeverStuck(run: seq<State>, k: nat)
    requires Run(run) && k < |run| && run[k].released < |run[k].order|
    ensures var s := run[k]; var i := s.order[s.released];
            && i < |s.threads|
            && (s.threads[i].Inside? || FirstInLine(s, i))
            && (s.threads[i].Ticketed? ==> Step(s, i).threads[i].Inside?)
            && (s.threads[i].Pausing?
                ==> FirstInLine(Step(s, i), i) && PausesLeft(Step(s, i).threads[i]) < PausesLeft(s.threads[i]))
  {
    var s := run[k];
    RunHasInv(run, k);
    assert Holds(s, s.released);
    SeesItsTurn(s, s.released);
  }

  // ---------------------------------------------------------------- waiting in proportion

  /** The state after `j` steps of thread `i` alone. */
  function OwnSteps(s: State, i: nat, j: nat): State {
    if j == 0 then s else Step(OwnSteps(s, i, j - 1), i)
  }

  lemma Position(s: State, n: nat)
    requires Inv(s) && s.released <= n < |s.order|
    ensures (Word(n) - s.next) % TWO32 == n - s.released
  {
    OutstandingBound(s);
    WordOffset(n, s.released);
    assert 0 <= n - s.released < TWO32;
  }

  /** In every run a thread that looks while `p` tickets are ahead of its own pauses exactly `p` times before
      it looks again. */
  lemma PausesPerTicketAhead(run: seq<State>, k: nat, i: nat, n: nat, j: nat)
    requires Run(run) && k < |run| && i < |run[k].threads| && run[k].threads[i].Ticketed?
    requires run[k].released < n < |run[k].order| && run[k].order[n] == i && j <= n - run[k].released
    ensures var p, t := n - run[k].released, run[k].threads[i].ticket;
            && |OwnSteps(run[k], i, j + 1).threads| == |run[k].threads|
            && OwnSteps(run[k], i, j + 1).threads[i] == if j < p then Pausing(t, p - j) else Ticketed(t)
  {
    var s := run[k];
    RunHasInv(run, k);
    assert Holds(s, n);
    Position(s, n);
    assert OwnSteps(s, i, 1) == Step(OwnSteps(s, i, 0), i) == Step(s, i);
    CountsDown(Step(s, i), s, i, s.threads[i].ticket, n - s.released, j);
  }

  lemma {:induction false} CountsDown(s: State, before: State, i: nat, t: nat, p: nat, j: nat)
    requires i < |s.threads| && s == Step(before, i) && s.threads[i] == Pausing(t, p) && 0 < p && j <= p
    ensures |OwnSteps(before, i, j + 1).threads| == |s.threads|
    ensures OwnSteps(before, i, j + 1).threads[i] == if j < p then Pausing(t, p - j) else Ticketed(t)
  {
    if j == 0 {
      assert OwnSteps(before, i, 1) == Step(OwnSteps(before, i, 0), i);
    } else {
      CountsDown(s, before, i, t, p, j - 1);
    }
  }
}
