/** What every interleaving of `try_push` and `try_pop` keeps. */
module AtomicQueueProofs {
  import opened Counting
  import opened Words
  import opened AtomicQueue

  // ---------------------------------------------------------------- tickets and slots

  /** When the size divides 2^32, the wrapped counter lands on the unwrapped counter's slot. */
  lemma WordKeepsResidue(size: nat, n: nat)
    requires size > 0 && TWO32 % size == 0
    ensures Word(n) % size == n % size
  {
    var m, q, r := TWO32 / size, n / TWO32, Word(n);
    assert TWO32 == m * size;
    assert n == q * TWO32 + r;
    assert q * (m * size) == (q * m) * size;
    assert n == (q * m) * size + r;
    ResidueShift(r, q * m, size);
  }

  lemma ResidueShift(r: nat, k: nat, size: nat)
    requires size > 0
    ensures (k * size + r) % size == r % size
  {
    var q, x := r / size, r % size;
    assert k * size + r == (k + q) * size + x by { assert (k + q) * size == k * size + q * size; }
    ModUnique(k * size + r, k + q, x, size);
  }

  lemma ModUnique(n: nat, q: nat, x: nat, size: nat)
    requires size > 0 && x < size && n == q * size + x
    ensures n % size == x
  {
    var q', x' := n / size, n % size;
    assert n == q' * size + x';
    assert (q - q') * size == x' - x;
    MulAway(q - q', size);
  }

  lemma MulAway(d: int, size: nat)
    ensures d >= 1 ==> d * size >= size
    ensures d <= -1 ==> d * size <= -(size as int)
  {
  }

  lemma ResiduesApart(a: nat, b: nat, size: nat)
    requires a < b < a + size
    ensures a % size != b % size
  {
    var q, r, d := a / size, a % size, b - a;
    assert a == q * size + r;
    if r + d < size {
      ModUnique(b, q, r + d, size);
    } else {
      assert (q + 1) * size == q * size + size;
      ModUnique(b, q + 1, r + d - size, size);
    }
  }

  /** Two tickets less than one queue size apart never share a slot. */
  lemma WindowSlots(cfg: Config, a: nat, b: nat)
    requires cfg.Valid() && a < b < a + cfg.size
    ensures cfg.Slot(a) != cfg.Slot(b)
  {
    WordKeepsResidue(cfg.size, a);
    WordKeepsResidue(cfg.size, b);
    ResiduesApart(a, b, cfg.size);
    var ra, rb := a % cfg.size, b % cfg.size;
    if ra < rb {
      assert cfg.remap[ra] != cfg.remap[rb];
    } else {
      assert cfg.remap[rb] != cfg.remap[ra];
    }
  }

  lemma {:induction false} ClaimsGrow(cfg: Config, t: nat, h: nat, j: nat)
    requires cfg.Valid() && t <= h
    ensures Claims(cfg, t, j) <= Claims(cfg, h, j)
    ensures (forall k | t <= k < h :: cfg.Slot(k) != j) ==> Claims(cfg, t, j) == Claims(cfg, h, j)
    decreases h
  {
    if t < h {
      ClaimsGrow(cfg, t, h - 1, j);
    }
  }

  /** In one window each slot has been claimed by at most one push that no pop has matched. */
  lemma {:induction false} ClaimsInWindow(cfg: Config, t: nat, h: nat, j: nat)
    requires cfg.Valid() && t <= h <= t + cfg.size
    ensures Claims(cfg, t, j) <= Claims(cfg, h, j) <= Claims(cfg, t, j) + 1
    decreases h
  {
    if t < h {
      ClaimsInWindow(cfg, t, h - 1, j);
      if cfg.Slot(h - 1) == j {
        forall k | t <= k < h - 1 ensures cfg.Slot(k) != j {
          WindowSlots(cfg, k, h - 1);
        }
        ClaimsGrow(cfg, t, h - 1, j);
      }
    }
  }

  // ---------------------------------------------------------------- effect of one thread moving

  lemma CountsAfter<T>(cfg: Config, ts: seq<Thread<T>>, i: nat, t: Thread<T>, j: nat)
    requires cfg.WellFormed() && i < |ts|
    ensures Count(ts[i := t], WaitsToPush(cfg, j)) + Bit(WaitsToPush(cfg, j)(ts[i]))
         == Count(ts, WaitsToPush(cfg, j)) + Bit(WaitsToPush(cfg, j)(t))
    ensures Count(ts[i := t], WaitsToPop(cfg, j)) + Bit(WaitsToPop(cfg, j)(ts[i]))
         == Count(ts, WaitsToPop(cfg, j)) + Bit(WaitsToPop(cfg, j)(t))
    ensures Count(ts[i := t], Stores(cfg, j)) + Bit(Stores(cfg, j)(ts[i]))
         == Count(ts, Stores(cfg, j)) + Bit(Stores(cfg, j)(t))
    ensures Count(ts[i := t], Loads(cfg, j)) + Bit(Loads(cfg, j)(ts[i]))
         == Count(ts, Loads(cfg, j)) + Bit(Loads(cfg, j)(t))
  {
    CountUpdate(ts, i, t, WaitsToPush(cfg, j));
    CountUpdate(ts, i, t, WaitsToPop(cfg, j));
    CountUpdate(ts, i, t, Stores(cfg, j));
    CountUpdate(ts, i, t, Loads(cfg, j));
  }

  /** A thread owning slot `j` is the only one: no other thread stores to it or loads from it. */
  lemma SoleOwner<T>(cfg: Config, s: State<T>, i: nat, k: nat, j: nat)
    requires Inv(cfg, s) && i < |s.threads| && k < |s.threads| && i != k && j < cfg.size
    requires Stores(cfg, j)(s.threads[i]) || Loads(cfg, j)(s.threads[i])
    ensures !Stores(cfg, j)(s.threads[k]) && !Loads(cfg, j)(s.threads[k])
  {
    assert Consistent(cfg, s, s.threads[i]) && Consistent(cfg, s, s.threads[k]);
    assert Balanced(cfg, s, j);
    var lo, hi := if i < k then i else k, if i < k then k else i;
    if Stores(cfg, j)(s.threads[i]) && Stores(cfg, j)(s.threads[k]) {
      CountTwo(s.threads, lo, hi, Stores(cfg, j));
    }
    if Loads(cfg, j)(s.threads[i]) && Loads(cfg, j)(s.threads[k]) {
      CountTwo(s.threads, lo, hi, Loads(cfg, j));
    }
  }

  /** The entries of slot `j`'s books that change when thread `i` becomes `t` agree. */
  ghost predicate BooksAgree<T>(cfg: Config, s: State<T>, s': State<T>, i: nat, t: Thread<T>, j: nat)
    requires Shaped(cfg, s) && Shaped(cfg, s') && i < |s.threads| && j < cfg.size
  {
    && Claims(cfg, s'.head, j) - Claims(cfg, s.head, j) + Claims(cfg, s.tail, j) - Claims(cfg, s'.tail, j)
       + Bit(WaitsToPop(cfg, j)(t)) - Bit(WaitsToPop(cfg, j)(s.threads[i]))
       == Bit(WaitsToPush(cfg, j)(t)) - Bit(WaitsToPush(cfg, j)(s.threads[i]))
          + Bit(s'.states[j] == STORING || s'.states[j] == STORED)
          - Bit(s.states[j] == STORING || s.states[j] == STORED)
    && Bit(Stores(cfg, j)(t)) - Bit(Stores(cfg, j)(s.threads[i]))
      == Bit(s'.states[j] == STORING) - Bit(s.states[j] == STORING)
    && Bit(Loads(cfg, j)(t)) - Bit(Loads(cfg, j)(s.threads[i]))
      == Bit(s'.states[j] == LOADING) - Bit(s.states[j] == LOADING)
  }

  lemma BooksKept<T>(cfg: Config, s: State<T>, s': State<T>, i: nat, t: Thread<T>, j: nat)
    requires Shaped(cfg, s) && Shaped(cfg, s') && i < |s.threads| && s'.threads == s.threads[i := t]
    requires j < cfg.size && Balanced(cfg, s, j) && BooksAgree(cfg, s, s', i, t, j)
    ensures Balanced(cfg, s', j)
  {
    CountsAfter(cfg, s.threads, i, t, j);
  }

  /** Conservation after thread `i` became `t` and slot `j` may have changed. */
  lemma ElementsKept<T>(cfg: Config, s: State<T>, s': State<T>, i: nat, t: Thread<T>, j: nat,
                        got: multiset<T>, out: multiset<T>)
    requires Shaped(cfg, s) && Shaped(cfg, s') && i < |s.threads| && j < cfg.size
    requires s'.threads == s.threads[i := t] && Conserved(cfg, s)
    requires s'.states == s.states[j := s'.states[j]] && s'.elems == s.elems[j := s'.elems[j]]
    requires s'.accepted == s.accepted + got && s'.returned == s.returned + out
    requires got + Carried(s.threads[i]) + Content((s.states[j], s.elems[j]))
          == out + Carried(t) + Content((s'.states[j], s'.elems[j]))
    ensures Conserved(cfg, s')
  {
    var slot' := (s'.states[j], s'.elems[j]);
    GatherUpdate(s.threads, i, t, Carried);
    GatherUpdate(Slots(s), j, slot', Content);
    assert Slots(s') == Slots(s)[j := slot'];
    SumsBalance(s.accepted, got, s.returned, out, Gather(s.threads, Carried), Gather(s'.threads, Carried),
                Gather(Slots(s), Content), Gather(Slots(s'), Content),
                Carried(s.threads[i]), Carried(t), Content((s.states[j], s.elems[j])), Content(slot'));
  }

  lemma SumsBalance<T>(acc: multiset<T>, got: multiset<T>, ret: multiset<T>, out: multiset<T>,
                       g: multiset<T>, g': multiset<T>, h: multiset<T>, h': multiset<T>,
                       c: multiset<T>, c': multiset<T>, d: multiset<T>, d': multiset<T>)
    requires acc == ret + g + h && g' + c == g + c' && h' + d == h + d' && got + c + d == out + c' + d'
    ensures acc + got == (ret + out) + g' + h'
  {
    forall x ensures (acc + got)[x] == ((ret + out) + g' + h')[x] {
      assert (g' + c)[x] == (g + c')[x];
      assert (h' + d)[x] == (h + d')[x];
      assert (got + c + d)[x] == (out + c' + d')[x];
    }
  }

  /** The other threads are unaffected by what thread `i` did to slot `j`. */
  ghost predicate OthersUntouched<T>(cfg: Config, s: State<T>, s': State<T>, i: nat, t: Thread<T>, j: nat)
    requires Shaped(cfg, s)
  {
    && Shaped(cfg, s') && i < |s.threads| && s'.threads == s.threads[i := t] && j < cfg.size
    && s'.states == s.states[j := s'.states[j]] && s'.elems == s.elems[j := s'.elems[j]]
    && s.head <= s'.head && s.tail <= s'.tail
    && ((s'.states[j] == s.states[j] && s'.elems[j] == s.elems[j])
        || forall k | 0 <= k < |s.threads| && k != i ::
             !Stores(cfg, j)(s.threads[k]) && !Loads(cfg, j)(s.threads[k]))
  }

  lemma ThreadsKept<T>(cfg: Config, s: State<T>, s': State<T>, i: nat, t: Thread<T>, j: nat, k: nat)
    requires Shaped(cfg, s) && OthersUntouched(cfg, s, s', i, t, j)
    requires k < |s.threads| && k != i && Consistent(cfg, s, s.threads[k])
    ensures Consistent(cfg, s', s'.threads[k])
  {
  }

  lemma MoveKeepsInv<T>(cfg: Config, s: State<T>, s': State<T>, i: nat, t: Thread<T>, j: nat,
                        got: multiset<T>, out: multiset<T>)
    requires Inv(cfg, s) && OthersUntouched(cfg, s, s', i, t, j)
    requires Window(cfg, s') && Consistent(cfg, s', t)
    requires forall l | 0 <= l < cfg.size :: BooksAgree(cfg, s, s', i, t, l)
    requires s'.accepted == s.accepted + got && s'.returned == s.returned + out
    requires got + Carried(s.threads[i]) + Content((s.states[j], s.elems[j]))
          == out + Carried(t) + Content((s'.states[j], s'.elems[j]))
    ensures Inv(cfg, s')
  {
    forall l | 0 <= l < cfg.size ensures Balanced(cfg, s', l) {
      BooksKept(cfg, s, s', i, t, l);
    }
    forall k | 0 <= k < |s'.threads| ensures Consistent(cfg, s', s'.threads[k]) {
      if k != i {
        ThreadsKept(cfg, s, s', i, t, j, k);
      }
    }
    ElementsKept(cfg, s, s', i, t, j, got, out);
  }

  // ---------------------------------------------------------------- every transition keeps it

  /** A thread that neither waits for nor owns a slot. */
  ghost predicate Free<T>(t: Thread<T>) {
    t.Idle? || t.PushRead? || t.PushTested? || t.PopRead? || t.PopTested?
  }

  lemma LocalMove<T>(cfg: Config, s: State<T>, i: nat, t: Thread<T>)
    requires Inv(cfg, s) && i < |s.threads|
    requires Free(s.threads[i]) && Free(t) && Consistent(cfg, s, t)
    ensures Inv(cfg, s.(threads := s.threads[i := t]))
  {
    MoveKeepsInv(cfg, s, s.(threads := s.threads[i := t]), i, t, 0, multiset{}, multiset{});
  }

  lemma ReadersKeepInv<T>(cfg: Config, s: State<T>, i: nat)
    requires Inv(cfg, s) && Timely(s) && i < |s.threads|
    requires s.threads[i].PushRead? || s.threads[i].PopRead?
    ensures Inv(cfg, RunThread(cfg, s, i))
  {
    var t := s.threads[i];
    assert Consistent(cfg, s, t) && TimelyThread(s, t);
    if t.PushRead? {
      SignedDiffExact(t.head, s.tail);
    } else {
      SignedDiffExact(s.head, t.tail);
    }
    LocalMove(cfg, s, i, RunThread(cfg, s, i).threads[i]);
  }

  lemma PushClaimBooks<T>(cfg: Config, s: State<T>, s': State<T>, i: nat, t': Thread<T>, l: nat)
    requires Shaped(cfg, s) && i < |s.threads| && l < cfg.size && s.threads[i].PushTested?
    requires s'.states == s.states && s'.elems == s.elems && s'.head == s.head + 1 && s'.tail == s.tail
    requires t'.PushWait? && t'.ticket == s.head
    ensures BooksAgree(cfg, s, s', i, t', l)
  {
  }

  lemma PopClaimBooks<T>(cfg: Config, s: State<T>, s': State<T>, i: nat, t': Thread<T>, l: nat)
    requires Shaped(cfg, s) && i < |s.threads| && l < cfg.size && s.threads[i].PopTested?
    requires s'.states == s.states && s'.elems == s.elems && s'.head == s.head && s'.tail == s.tail + 1
    requires t'.PopWait? && t'.ticket == s.tail
    ensures BooksAgree(cfg, s, s', i, t', l)
  {
  }

  lemma PushClaims<T>(cfg: Config, s: State<T>, s': State<T>, i: nat, e: T)
    requires Inv(cfg, s) && i < |s.threads| && s.threads[i] == PushTested(e, s.head)
    requires s' == s.(head := s.head + 1, threads := s.threads[i := PushWait(e, s.head)],
            accepted := s.accepted + multiset{e})
    ensures Inv(cfg, s')
  {
    assert Consistent(cfg, s, s.threads[i]);
    forall l | 0 <= l < cfg.size ensures BooksAgree(cfg, s, s', i, PushWait(e, s.head), l) {
      PushClaimBooks(cfg, s, s', i, PushWait(e, s.head), l);
    }
    Alone(s.returned);
    MoveKeepsInv(cfg, s, s', i, PushWait(e, s.head), 0, multiset{e}, multiset{});
  }

  lemma PopClaims<T>(cfg: Config, s: State<T>, s': State<T>, i: nat)
    requires Inv(cfg, s) && i < |s.threads| && s.threads[i] == PopTested(s.tail)
    requires s' == s.(tail := s.tail + 1, threads := s.threads[i := PopWait(s.tail)])
    ensures Inv(cfg, s')
  {
    assert Consistent(cfg, s, s.threads[i]);
    forall l | 0 <= l < cfg.size ensures BooksAgree(cfg, s, s', i, PopWait(s.tail), l) {
      PopClaimBooks(cfg, s, s', i, PopWait(s.tail), l);
    }
    Alone(s.accepted);
    Alone(s.returned);
    MoveKeepsInv(cfg, s, s', i, PopWait(s.tail), 0, multiset{}, multiset{});
  }

  lemma TestedKeepInv<T>(cfg: Config, s: State<T>, i: nat)
    requires Inv(cfg, s) && Timely(s) && i < |s.threads|
    requires s.threads[i].PushTested? || s.threads[i].PopTested?
    ensures Inv(cfg, RunThread(cfg, s, i))
  {
    var t := s.threads[i];
    assert Consistent(cfg, s, t) && TimelyThread(s, t);
    if t.PushTested? {
      WordEqual(t.head, s.head);
      if t.head == s.head {
        PushClaims(cfg, s, RunThread(cfg, s, i), i, t.elem);
      } else {
        LocalMove(cfg, s, i, PushRead(t.elem, s.head));
      }
    } else {
      WordEqual(t.tail, s.tail);
      if t.tail == s.tail {
        PopClaims(cfg, s, RunThread(cfg, s, i), i);
      } else {
        LocalMove(cfg, s, i, PopRead(s.tail));
      }
    }
  }

  /** The six steps a ticket holder takes at its slot: thread, slot state, slot content, element handed out. */
  ghost predicate SlotStep<T>(t: Thread<T>, slot: (SlotState, T), t': Thread<T>, slot': (SlotState, T),
      out: multiset<T>) {
    match t
    case PushWait(x, k) =>
      t' == PushOwn(x, k) && slot == (EMPTY, slot.1) && slot' == (STORING, slot.1) && out == multiset{}
    case PushOwn(x, k) =>
      t' == PushWritten(x, k) && slot == (STORING, slot.1) && slot' == (STORING, x) && out == multiset{}
    case PushWritten(x, _) => t' == Idle && slot == (STORING, x) && slot' == (STORED, x) && out == multiset{}
    case PopWait(k) =>
      t' == PopOwn(k, slot.1) && slot == (STORED, slot.1) && slot' == (LOADING, slot.1) && out == multiset{}
    case PopOwn(k, x) => t' == PopMoved(k, x) && slot == (LOADING, x) && slot' == slot && out == multiset{}
    case PopMoved(_, x) => t' == Idle && slot == (LOADING, slot.1) && slot' == (EMPTY, slot.1) && out == multiset{x}
    case _ => false
  }

  /** Nothing added on either side. */
  lemma Alone<T>(x: multiset<T>)
    ensures var none: multiset<T> := multiset{}; none + x + none == x && none + none + x == x && x + none + none == x
    ensures x + multiset{} == x
  {
  }

  lemma SlotElements<T>(t: Thread<T>, slot: (SlotState, T), t': Thread<T>, slot': (SlotState, T), out: multiset<T>)
    requires SlotStep(t, slot, t', slot', out)
    ensures multiset{} + Carried(t) + Content(slot) == out + Carried(t') + Content(slot')
  {
    var none: multiset<T> := multiset{};
    var x := if t.PopWait? then slot.1 else if t.PopOwn? then t.seen else t.elem;
    Alone(multiset{x});
    match t
    case PushWait(_, _) => assert Carried(t) == Carried(t') == multiset{x} && Content(slot) == Content(slot') == none;
    case PushOwn(_, _) => assert Carried(t) == Carried(t') == multiset{x} && Content(slot) == Content(slot') == none;
    case PushWritten(_, _) =>
      assert Carried(t) == Content(slot') == multiset{x} && Content(slot) == Carried(t') == none;
    case PopWait(_) => assert Carried(t) == Content(slot') == none && Content(slot) == Carried(t') == multiset{x};
    case PopOwn(_, _) => assert Carried(t) == Carried(t') == multiset{x} && Content(slot) == Content(slot') == none;
    case PopMoved(_, _) =>
      assert Carried(t) == out == multiset{x} && Content(slot) == Content(slot') == Carried(t') == none;
  }

  lemma SlotBooks<T>(cfg: Config, s: State<T>, s': State<T>, i: nat, t': Thread<T>, j: nat, out: multiset<T>, l: nat)
    requires Shaped(cfg, s) && Shaped(cfg, s') && i < |s.threads| && l < cfg.size
    requires !Free(s.threads[i]) && s'.head == s.head && s'.tail == s.tail && j == cfg.Slot(s.threads[i].ticket)
    requires s'.states == s.states[j := s'.states[j]]
    requires SlotStep(s.threads[i], (s.states[j], s.elems[j]), t', (s'.states[j], s'.elems[j]), out)
    ensures BooksAgree(cfg, s, s', i, t', l)
  {
  }

  lemma SlotStepKeepsInv<T>(cfg: Config, s: State<T>, s': State<T>, i: nat, t': Thread<T>, j: nat, out: multiset<T>)
    requires Inv(cfg, s) && i < |s.threads| && !Free(s.threads[i]) && j == cfg.Slot(s.threads[i].ticket)
    requires Shaped(cfg, s') && s'.threads == s.threads[i := t'] && s'.head == s.head && s'.tail == s.tail
    requires s'.states == s.states[j := s'.states[j]] && s'.elems == s.elems[j := s'.elems[j]]
    requires SlotStep(s.threads[i], (s.states[j], s.elems[j]), t', (s'.states[j], s'.elems[j]), out)
    requires s'.accepted == s.accepted && s'.returned == s.returned + out
    ensures Inv(cfg, s')
  {
    assert Consistent(cfg, s, s.threads[i]);
    OthersAway(cfg, s, i, j);
    forall l | 0 <= l < cfg.size ensures BooksAgree(cfg, s, s', i, t', l) {
      SlotBooks(cfg, s, s', i, t', j, out, l);
    }
    assert s'.accepted == s.accepted + multiset{};
    SlotElements(s.threads[i], (s.states[j], s.elems[j]), t', (s'.states[j], s'.elems[j]), out);
    MoveKeepsInv(cfg, s, s', i, t', j, multiset{}, out);
  }

  lemma StoringKeepsInv<T>(cfg: Config, s: State<T>, i: nat)
    requires Inv(cfg, s) && i < |s.threads| && Enabled(cfg, s, i)
    requires s.threads[i].PushWait? || s.threads[i].PushOwn? || s.threads[i].PushWritten?
    ensures Inv(cfg, RunThread(cfg, s, i))
  {
    var t, s' := s.threads[i], RunThread(cfg, s, i);
    var j := cfg.Slot(t.ticket);
    assert Consistent(cfg, s, t);
    var out: multiset<T> := multiset{};
    assert s'.returned == s.returned + out;
    SlotStepKeepsInv(cfg, s, s', i, s'.threads[i], j, out);
  }

  lemma LoadingKeepsInv<T>(cfg: Config, s: State<T>, i: nat)
    requires Inv(cfg, s) && i < |s.threads| && Enabled(cfg, s, i)
    requires s.threads[i].PopWait? || s.threads[i].PopOwn? || s.threads[i].PopMoved?
    ensures Inv(cfg, RunThread(cfg, s, i))
  {
    var t, s' := s.threads[i], RunThread(cfg, s, i);
    var j := cfg.Slot(t.ticket);
    assert Consistent(cfg, s, t);
    var out: multiset<T> := if t.PopMoved? then multiset{t.elem} else multiset{};
    assert s'.returned == s.returned + out;
    SlotStepKeepsInv(cfg, s, s', i, s'.threads[i], j, out);
  }

  /** Whoever may change slot `j` now does so alone. */
  lemma OthersAway<T>(cfg: Config, s: State<T>, i: nat, j: nat)
    requires Inv(cfg, s) && i < |s.threads| && j < cfg.size
    requires Stores(cfg, j)(s.threads[i]) || Loads(cfg, j)(s.threads[i]) || s.states[j] == EMPTY
            || s.states[j] == STORED
    ensures forall k | 0 <= k < |s.threads| && k != i ::
              !Stores(cfg, j)(s.threads[k]) && !Loads(cfg, j)(s.threads[k])
  {
    forall k | 0 <= k < |s.threads| && k != i
      ensures !Stores(cfg, j)(s.threads[k]) && !Loads(cfg, j)(s.threads[k])
    {
      if Stores(cfg, j)(s.threads[i]) || Loads(cfg, j)(s.threads[i]) {
        SoleOwner(cfg, s, i, k, j);
      } else {
        assert Consistent(cfg, s, s.threads[k]);
      }
    }
  }

  /** One atomic operation of any thread keeps the whole invariant. */
  lemma StepKeepsInv<T>(cfg: Config, s: State<T>, i: nat, a: Action<T>)
    requires Inv(cfg, s) && Timely(s)
    ensures Inv(cfg, Step(cfg, s, i, a))
  {
    if i < |s.threads| {
      match s.threads[i]
      case Idle =>
        if a.BeginPush? {
          LocalMove(cfg, s, i, PushRead(a.elem, s.head));
        } else if a.BeginPop? {
          LocalMove(cfg, s, i, PopRead(s.tail));
        }
      case PushRead(_, _) => ReadersKeepInv(cfg, s, i);
      case PopRead(_) => ReadersKeepInv(cfg, s, i);
      case PushTested(_, _) => TestedKeepInv(cfg, s, i);
      case PopTested(_) => TestedKeepInv(cfg, s, i);
      case PushWait(_, _) => if Enabled(cfg, s, i) { StoringKeepsInv(cfg, s, i); }
      case PushOwn(_, _) => StoringKeepsInv(cfg, s, i);
      case PushWritten(_, _) => StoringKeepsInv(cfg, s, i);
      case PopWait(_) => if Enabled(cfg, s, i) { LoadingKeepsInv(cfg, s, i); }
      case PopOwn(_, _) => LoadingKeepsInv(cfg, s, i);
      case PopMoved(_, _) => LoadingKeepsInv(cfg, s, i);
    }
  }

  lemma InitHasInv<T>(cfg: Config, elems: seq<T>, n: nat)
    requires cfg.Valid() && |elems| == cfg.size
    ensures Inv(cfg, Init(cfg, elems, n))
  {
    var s := Init(cfg, elems, n);
    forall j | 0 <= j < cfg.size ensures Balanced(cfg, s, j) {
      CountNone(s.threads, WaitsToPush(cfg, j));
      CountNone(s.threads, WaitsToPop(cfg, j));
      CountNone(s.threads, Stores(cfg, j));
      CountNone(s.threads, Loads(cfg, j));
    }
    GatherEmpty(s.threads, Carried);
    GatherEmpty(Slots(s), Content);
  }

  /** Every state of every run satisfies the invariant. */
  lemma {:induction false} TraceHasInv<T(!new)>(cfg: Config, run: seq<State<T>>, k: nat)
    requires Trace(cfg, run) && k < |run|
    ensures Inv(cfg, run[k])
  {
    if k == 0 {
      var elems: seq<T>, n: nat :| |elems| == cfg.size && run[0] == Init(cfg, elems, n);
      InitHasInv(cfg, elems, n);
    } else {
      TraceHasInv(cfg, run, k - 1);
      assert Transition(cfg, run[k - 1], run[k - 1 + 1]);
      var i: nat, a: Action<T> :| run[k] == Step(cfg, run[k - 1], i, a);
      StepKeepsInv(cfg, run[k - 1], i, a);
    }
  }
}
