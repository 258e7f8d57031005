/**
  Acquire operations racing against each other, `release`, `close` and stop
  requests.  Each locked section and each atomic exchange is one step; between
  steps anything may happen.  A completion that was decided under the lock is
  carried out later, so it sits in `pending` until then.
 */
module SemaphoreProtocol {
  import opened Semaphore

  type Op = nat

  datatype Signal = Grant | Refuse | Stopped

  datatype State = State(
    sem: Sem<Op>,
    started: set<Op>,
    /** Past the check of `completed` in `request_stop`, not yet detached. */
    stopping: set<Op>,
    pending: set<(Op, Signal)>,
    /** The `completed` flags, and what was delivered by the exchange that set them. */
    completed: set<Op>,
    delivered: seq<(Op, Signal)>,
    // history, never read by a step
    initial: nat,
    released: nat,
    immediate: set<Op>,
    arrivals: seq<Op>,
    cancelled: set<Op>,
    popped: seq<Op>,
    flushed: seq<Op>)

  datatype Step =
    | StartStopped(op: Op)
    | Start(op: Op)
    | ReleaseStep(permits: int)
    | CloseStep
    | RequestStop(op: Op)
    | DetachStep(op: Op)
    | Finish(op: Op, signal: Signal)

  function Init(permits: int): State {
    var p := if permits > 0 then permits else 0;
    State(Sem(p, false, []), {}, {}, {}, {}, [], p, 0, {}, [], {}, [], [])
  }

  function All(ops: seq<Op>, signal: Signal): set<(Op, Signal)> {
    set op | op in ops :: (op, signal)
  }

  /** A step that cannot be taken changes nothing. */
  function Next(s: State, step: Step): State {
    match step
    case StartStopped(op) =>
      if op in s.started then s
      else s.(started := s.started + {op}, pending := s.pending + {(op, Stopped)})
    case Start(op) =>
      if op in s.started then s
      else
        var (sem, verdict) := Acquire(s.sem, op);
        var s1 := s.(sem := sem, started := s.started + {op});
        (match verdict
         case Denied => s1.(pending := s.pending + {(op, Refuse)})
         case Granted => s1.(pending := s.pending + {(op, Grant)}, immediate := s.immediate + {op})
         case Queued => s1.(arrivals := s.arrivals + [op]))
    case ReleaseStep(n) =>
      var (sem, ready) := Release(s.sem, n);
      s.(sem := sem, pending := s.pending + All(ready, Grant), popped := s.popped + ready,
         released := if n > 0 && !s.sem.closed then s.released + n else s.released)
    case CloseStep =>
      var (sem, waiting) := Close(s.sem);
      s.(sem := sem, pending := s.pending + All(waiting, Refuse), flushed := s.flushed + waiting)
    case RequestStop(op) =>
      if op in s.arrivals && op !in s.completed then s.(stopping := s.stopping + {op}) else s
    case DetachStep(op) =>
      if op !in s.stopping then s
      else s.(sem := Detach(s.sem, op), stopping := s.stopping - {op}, pending := s.pending + {(op, Stopped)},
              cancelled := if op in s.sem.waiters then s.cancelled + {op} else s.cancelled)
    case Finish(op, signal) =>
      if (op, signal) !in s.pending then s
      else if op in s.completed then s.(pending := s.pending - {(op, signal)})
      else s.(pending := s.pending - {(op, signal)}, completed := s.completed + {op},
              delivered := s.delivered + [(op, signal)])
  }

  function Run(s: State, steps: seq<Step>): State
    decreases |steps|
  {
    if steps == [] then s else Run(Next(s, steps[0]), steps[1..])
  }

  // ---------- histories ----------

  /** The arrivals that were not cancelled while waiting, in order. */
  function Remaining(arrivals: seq<Op>, cancelled: set<Op>): seq<Op> {
    if arrivals == [] then []
    else (if arrivals[0] in cancelled then [] else [arrivals[0]]) + Remaining(arrivals[1..], cancelled)
  }

  lemma {:induction false} RemainingAppend(a: seq<Op>, c: set<Op>, op: Op)
    requires op !in c
    ensures Remaining(a + [op], c) == Remaining(a, c) + [op]
  {
    if a == [] {
      assert [] + [op] == [op] && [op][1..] == [];
    } else {
      RemainingAppend(a[1..], c, op);
      assert (a + [op])[1..] == a[1..] + [op];
    }
  }

  lemma {:induction false} RemainingIn(a: seq<Op>, c: set<Op>)
    ensures forall op :: op in Remaining(a, c) <==> op in a && op !in c
  {
    if a != [] {
      RemainingIn(a[1..], c);
      assert a == [a[0]] + a[1..];
    }
  }

  lemma {:induction false} RemainingCancel(a: seq<Op>, c: set<Op>, op: Op)
    requires Distinct(a)
    ensures Remaining(a, c + {op}) == Without(Remaining(a, c), op)
  {
    if a != [] {
      RemainingCancel(a[1..], c, op);
      RemainingIn(a[1..], c);
      if a[0] == op && a[0] !in c {
        assert op !in a[1..];
        WithoutAbsent(Remaining(a[1..], c), op);
        assert Remaining(a, c) == [op] + Remaining(a[1..], c);
      } else if a[0] in c {
        assert Remaining(a, c) == Remaining(a[1..], c) && Remaining(a, c + {op}) == Remaining(a[1..], c + {op});
      } else {
        assert Remaining(a, c)[1..] == Remaining(a[1..], c);
      }
    }
  }

  lemma {:induction false} WithoutSuffix(p: seq<Op>, q: seq<Op>, op: Op)
    requires op !in p
    ensures Without(p + q, op) == p + Without(q, op)
  {
    if p == [] {
      assert p + q == q;
    } else {
      WithoutSuffix(p[1..], q, op);
      assert (p + q)[1..] == p[1..] + q;
    }
  }

  // ---------- the invariant ----------

  /** Who may be told what, and nobody twice. */
  ghost predicate Justified(s: State, op: Op, signal: Signal) {
    && op in s.started
    && op !in s.sem.waiters
    && match signal
       case Grant => op in s.immediate || op in s.popped
       case Refuse => s.sem.closed && op !in s.immediate && op !in s.popped
       case Stopped => true
  }

  ghost predicate Answerable(s: State, op: Op) {
    op in s.sem.waiters || op in s.completed || exists signal :: (op, signal) in s.pending
  }

  ghost predicate Order(s: State) {
    && Distinct(s.arrivals)
    && (forall op :: op in s.arrivals ==> op in s.started && op !in s.immediate)
    && s.immediate <= s.started && s.cancelled <= s.started
    && Remaining(s.arrivals, s.cancelled) == s.popped + s.flushed + s.sem.waiters
  }

  ghost predicate Accounts(s: State) {
    && Consistent(s.sem)
    && (!s.sem.closed ==> s.flushed == [] && s.sem.permits + |s.immediate| + |s.popped| == s.initial + s.released)
  }

  ghost predicate Delivery(s: State) {
    && (forall p :: p in s.pending ==> Justified(s, p.0, p.1))
    && (forall i :: 0 <= i < |s.delivered| ==>
        s.delivered[i].0 in s.completed && Justified(s, s.delivered[i].0, s.delivered[i].1))
    && (forall i, j :: 0 <= i < j < |s.delivered| ==> s.delivered[i].0 != s.delivered[j].0)
    && (forall op :: op in s.completed ==> exists i :: 0 <= i < |s.delivered| && s.delivered[i].0 == op)
    && (forall op :: op in s.stopping ==> op in s.started)
    && (forall op :: op in s.started ==> Answerable(s, op))
  }

  ghost predicate Inv(s: State) {
    Order(s) && Accounts(s) && Delivery(s)
  }

  lemma InitInv(permits: int)
    ensures Inv(Init(permits))
  {}

  lemma OrderFacts(s: State)
    requires Order(s)
    ensures forall op :: op in s.sem.waiters || op in s.popped || op in s.flushed ==>
        op in s.arrivals && op !in s.cancelled
    ensures Distinct(s.popped + s.flushed + s.sem.waiters)
    ensures forall op :: op in s.sem.waiters ==> op !in s.popped && op !in s.flushed
  {
    RemainingIn(s.arrivals, s.cancelled);
    RemainingDistinct(s.arrivals, s.cancelled);
    var all := s.popped + s.flushed + s.sem.waiters;
    forall op | op in s.sem.waiters || op in s.popped || op in s.flushed ensures op in all {}
    forall op | op in s.popped || op in s.flushed ensures op !in s.sem.waiters {
      assert op in s.popped + s.flushed;
      RemovedPrefix(s.popped + s.flushed, s.sem.waiters, op);
    }
  }

  lemma {:induction false} RemainingDistinct(a: seq<Op>, c: set<Op>)
    requires Distinct(a)
    ensures Distinct(Remaining(a, c))
  {
    if a != [] {
      RemainingDistinct(a[1..], c);
      RemainingIn(a[1..], c);
    }
  }

  lemma StartKeeps(s: State, op: Op)
    requires Order(s) && Accounts(s) && op !in s.started
    ensures Order(Next(s, Start(op))) && Accounts(Next(s, Start(op)))
  {
    OrderFacts(s);
    SectionsKeepConsistency(s.sem, op, 0);
    assert op !in s.arrivals && op !in s.cancelled;
    if Acquire(s.sem, op).1 == Queued {
      RemainingAppend(s.arrivals, s.cancelled, op);
      assert s.popped + s.flushed + (s.sem.waiters + [op]) == s.popped + s.flushed + s.sem.waiters + [op];
    } else {
      assert |s.immediate + {op}| == |s.immediate| + 1;
    }
  }

  lemma MoveFront(p: seq<Op>, r: seq<Op>, w: seq<Op>)
    ensures p + [] + (r + w) == (p + r) + [] + w
    ensures p + [] + w == p + ([] + w) + []
  {}

  lemma ReleaseKeeps(s: State, n: int)
    requires Order(s) && Accounts(s)
    ensures Order(Next(s, ReleaseStep(n))) && Accounts(Next(s, ReleaseStep(n)))
  {
    SectionsKeepConsistency(s.sem, 0, n);
    var (sem, ready) := Release(s.sem, n);
    if s.sem.closed {
      assert ready == [] && s.popped + ready == s.popped;
    } else {
      assert s.flushed == [] && s.sem.waiters == ready + sem.waiters;
      MoveFront(s.popped, ready, sem.waiters);
    }
  }

  lemma CloseKeeps(s: State)
    requires Order(s) && Accounts(s)
    ensures Order(Next(s, CloseStep)) && Accounts(Next(s, CloseStep))
  {
    SectionsKeepConsistency(s.sem, 0, 0);
    var (sem, waiting) := Close(s.sem);
    if s.sem.closed {
      assert waiting == [] && s.flushed + waiting == s.flushed;
    } else {
      assert s.flushed == [] && sem.waiters == [] && waiting == s.sem.waiters;
      MoveFront(s.popped, [], waiting);
    }
  }

  lemma DetachKeeps(s: State, op: Op)
    requires Order(s) && Accounts(s)
    ensures Order(Next(s, DetachStep(op))) && Accounts(Next(s, DetachStep(op)))
  {
    OrderFacts(s);
    SectionsKeepConsistency(s.sem, op, 0);
    if op in s.sem.waiters {
      RemainingCancel(s.arrivals, s.cancelled, op);
      WithoutSuffix(s.popped + s.flushed, s.sem.waiters, op);
    } else {
      WithoutAbsent(s.sem.waiters, op);
    }
  }

  lemma NextOrderAndAccounts(s: State, step: Step)
    requires Inv(s)
    ensures Order(Next(s, step)) && Accounts(Next(s, step))
  {
    match step
    case Start(op) => if op !in s.started { StartKeeps(s, op); }
    case ReleaseStep(n) => ReleaseKeeps(s, n);
    case CloseStep => CloseKeeps(s);
    case DetachStep(op) => DetachKeeps(s, op);
    case _ =>
  }

  /** What a step does to the waiters: an unanswered operation leaves the queue
      only together with a signal for it, and only new operations enter. */
  ghost predicate Progresses(s: State, t: State) {
    && s.started <= t.started && s.completed <= t.completed
    && (forall op :: op in t.sem.waiters ==> op in s.sem.waiters || op !in s.started)
    && (forall op :: op in s.sem.waiters && op !in t.sem.waiters ==> exists signal :: (op, signal) in t.pending)
    && (forall op :: op in s.popped ==> op in t.popped) && s.immediate <= t.immediate
    && (forall op :: op in t.popped && op !in s.popped ==> op in s.sem.waiters)
    && (forall op :: op in t.immediate && op !in s.immediate ==> op !in s.started)
    && (s.sem.closed ==> t.sem.closed)
  }

  lemma ReleaseProgresses(s: State, n: int)
    requires Consistent(s.sem)
    ensures Progresses(s, Next(s, ReleaseStep(n)))
  {
    var (sem, ready) := Release(s.sem, n);
    SectionsKeepConsistency(s.sem, 0, n);
    hide Consistent, Release;
    var t := Next(s, ReleaseStep(n));
    assert forall op :: op in s.sem.waiters <==> op in ready || op in sem.waiters
        by { assert s.sem.waiters == ready + sem.waiters; }
    forall op | op in s.sem.waiters && op !in sem.waiters ensures exists signal :: (op, signal) in t.pending {
      assert (op, Grant) in t.pending;
    }
  }

  lemma DetachProgresses(s: State, op: Op)
    requires Consistent(s.sem)
    ensures Progresses(s, Next(s, DetachStep(op)))
  {
    var t := Next(s, DetachStep(op));
    if op in s.sem.waiters {
      var i :| 0 <= i < |s.sem.waiters| && s.sem.waiters[i] == op;
      WithoutAt(s.sem.waiters, i);
      RemovedAt(s.sem.waiters, i);
      assert op in s.stopping ==> (op, Stopped) in t.pending;
    } else {
      WithoutAbsent(s.sem.waiters, op);
    }
  }

  lemma NextProgresses(s: State, step: Step)
    requires Consistent(s.sem)
    ensures Progresses(s, Next(s, step))
  {
    match step
    case ReleaseStep(n) => ReleaseProgresses(s, n);
    case DetachStep(op) => DetachProgresses(s, op);
    case CloseStep =>
      var t := Next(s, step);
      forall op | op in s.sem.waiters && op !in t.sem.waiters ensures exists signal :: (op, signal) in t.pending {
        assert (op, Refuse) in t.pending;
      }
    case _ =>
  }

  lemma JustifiedStays(s: State, step: Step, op: Op, signal: Signal)
    requires Inv(s) && Justified(s, op, signal)
    ensures Justified(Next(s, step), op, signal)
  {
    NextProgresses(s, step);
    hide Order, Accounts, Delivery, Next;
  }

  lemma NewSignals(s: State, step: Step, p: (Op, Signal))
    requires Inv(s) && p in Next(s, step).pending && p !in s.pending
    ensures Justified(Next(s, step), p.0, p.1)
  {
    OrderFacts(s);
    hide Delivery;
    match step
    case ReleaseStep(n) => NewGrants(s, n, p);
    case DetachStep(op) =>
      if op in s.sem.waiters {
        var i :| 0 <= i < |s.sem.waiters| && s.sem.waiters[i] == op;
        WithoutAt(s.sem.waiters, i);
        RemovedAt(s.sem.waiters, i);
      } else {
        WithoutAbsent(s.sem.waiters, op);
      }
    case _ =>
  }

  lemma NewGrants(s: State, n: int, p: (Op, Signal))
    requires Order(s) && Consistent(s.sem) && p in Next(s, ReleaseStep(n)).pending && p !in s.pending
    ensures Justified(Next(s, ReleaseStep(n)), p.0, p.1)
  {
    OrderFacts(s);
    var (sem, ready) := Release(s.sem, n);
    SectionsKeepConsistency(s.sem, 0, n);
    hide Release;
    assert p.0 in ready && p.0 in ready + sem.waiters;
    RemovedPrefix(ready, sem.waiters, p.0);
  }

  lemma RemovedPrefix(p: seq<Op>, q: seq<Op>, op: Op)
    requires Distinct(p + q) && op in p
    ensures op !in q
  {
    var i :| 0 <= i < |p| && p[i] == op;
    forall j | 0 <= j < |q| ensures q[j] != op {
      assert (p + q)[i] == op && (p + q)[|p| + j] == q[j];
    }
  }

  predicate Adds(s: State, t: State, p: (Op, Signal)) {
    t.completed == s.completed + {p.0} && t.delivered == s.delivered + [p]
  }

  /** At most one answer is added, for an operation that had none. */
  lemma NextDelivers(s: State, step: Step)
    ensures var t := Next(s, step);
            || (t.delivered == s.delivered && t.completed == s.completed)
            || (exists p :: p in s.pending && p.0 !in s.completed && Adds(s, t, p))
  {
    if step.Finish? {
      var p := (step.op, step.signal);
      assert p in s.pending && p.0 !in s.completed ==> Next(s, step).delivered == s.delivered + [p];
    }
  }

  lemma NextDelivery(s: State, step: Step)
    requires Inv(s)
    ensures Delivery(Next(s, step))
  {
    var t := Next(s, step);
    NextProgresses(s, step);
    NextDelivers(s, step);
    forall p | p in t.pending ensures Justified(t, p.0, p.1) {
      if p in s.pending { JustifiedStays(s, step, p.0, p.1); } else { NewSignals(s, step, p); }
    }
    forall op | op in t.started ensures Answerable(t, op) { NextAnswerable(s, step, op); }
    forall op, signal | Justified(s, op, signal) ensures Justified(t, op, signal) {
      JustifiedStays(s, step, op, signal);
    }
    assert forall op :: op in t.stopping ==> op in t.started;
    hide Next, Justified, Answerable, Order, Accounts;
    DeliveredGrows(s, t);
  }

  lemma DeliveredGrows(s: State, t: State)
    requires Delivery(s)
    requires || (t.delivered == s.delivered && t.completed == s.completed)
             || (exists p :: p in s.pending && p.0 !in s.completed && Adds(s, t, p))
    requires forall op, signal :: Justified(s, op, signal) ==> Justified(t, op, signal)
    requires forall p :: p in t.pending ==> Justified(t, p.0, p.1)
    requires forall op :: op in t.started ==> Answerable(t, op)
    requires forall op :: op in t.stopping ==> op in t.started
    ensures Delivery(t)
  {
    hide Justified, Answerable;
    forall op | op in t.completed ensures exists i :: 0 <= i < |t.delivered| && t.delivered[i].0 == op {
      if op in s.completed {
        var i :| 0 <= i < |s.delivered| && s.delivered[i].0 == op;
        assert t.delivered[i].0 == op;
      } else {
        assert t.delivered[|s.delivered|].0 == op;
      }
    }
  }

  lemma NextAnswerable(s: State, step: Step, op: Op)
    requires Inv(s) && op in Next(s, step).started
    ensures Answerable(Next(s, step), op)
  {
    var t := Next(s, step);
    NextProgresses(s, step);
    if op !in s.started {
      match step
      case StartStopped(_) => assert (op, Stopped) in t.pending;
      case Start(_) =>
        assert Acquire(s.sem, op).1 == Denied ==> (op, Refuse) in t.pending;
        assert Acquire(s.sem, op).1 == Granted ==> (op, Grant) in t.pending;
        assert Acquire(s.sem, op).1 == Queued ==> t.sem.waiters[|s.sem.waiters|] == op;
    } else if op !in s.sem.waiters && op !in s.completed {
      var signal :| (op, signal) in s.pending;
      assert (op, signal) in t.pending || op in t.completed;
    }
  }

  lemma {:induction false} RunInv(s: State, steps: seq<Step>)
    requires Inv(s)
    ensures Inv(Run(s, steps))
    decreases |steps|
  {
    if steps != [] {
      NextOrderAndAccounts(s, steps[0]);
      NextDelivery(s, steps[0]);
      RunInv(Next(s, steps[0]), steps[1..]);
    }
  }

  // ---------- what every run keeps ----------

  /** In every reachable state: no permit is idle while somebody waits, a closed
      semaphore has neither, and until it is closed every permit ever put in is
      idle, was taken on the spot, or went to a waiter. */
  lemma PermitsAreAccountedFor(permits: int, steps: seq<Step>)
    ensures var s := Run(Init(permits), steps);
            && (s.sem.permits > 0 ==> s.sem.waiters == [])
            && (s.sem.closed ==> s.sem.permits == 0 && s.sem.waiters == [])
            && (!s.sem.closed ==> s.sem.permits + |s.immediate| + |s.popped| == s.initial + s.released)
  {
    InitInv(permits);
    RunInv(Init(permits), steps);
  }

  /** Waiters are served strictly in arrival order among those that did not give up. */
  lemma WaitersAreServedInOrder(permits: int, steps: seq<Step>)
    ensures var s := Run(Init(permits), steps);
            && s.popped + s.flushed + s.sem.waiters == Remaining(s.arrivals, s.cancelled)
            && s.popped <= Remaining(s.arrivals, s.cancelled)
            && (forall op :: op in s.popped ==> op !in s.cancelled)
  {
    InitInv(permits);
    RunInv(Init(permits), steps);
    OrderFacts(Run(Init(permits), steps));
  }

  function Answers(d: seq<(Op, Signal)>, op: Op): nat {
    if d == [] then 0 else (if d[0].0 == op then 1 else 0) + Answers(d[1..], op)
  }

  lemma {:induction false} AnswersOnce(d: seq<(Op, Signal)>, op: Op)
    requires forall i, j :: 0 <= i < j < |d| ==> d[i].0 != d[j].0
    ensures Answers(d, op) == if exists i :: 0 <= i < |d| && d[i].0 == op then 1 else 0
  {
    if d != [] {
      AnswersOnce(d[1..], op);
      assert (exists i :: 0 <= i < |d| && d[i].0 == op) <==>
          d[0].0 == op || (exists i :: 0 <= i < |d[1..]| && d[1..][i].0 == op) by {
        if i :| 0 <= i < |d| && d[i].0 == op && i > 0 { assert d[1..][i - 1].0 == op; }
        if i :| 0 <= i < |d[1..]| && d[1..][i].0 == op { assert d[i + 1].0 == op; }
      }
    }
  }

  /** No operation is answered twice, however grant, close and stop race; an
      answer `true` was paid for with a permit; and once no completion is in flight
      every started operation has been answered exactly once or is still queued. */
  lemma OperationsAreAnsweredOnce(permits: int, steps: seq<Step>, op: Op)
    ensures var s := Run(Init(permits), steps);
            && Answers(s.delivered, op) <= 1
            && ((op, Grant) in s.delivered ==> op in s.immediate || op in s.popped)
            && (op in s.started && s.pending == {} ==> (Answers(s.delivered, op) == 1) != (op in s.sem.waiters))
  {
    InitInv(permits);
    RunInv(Init(permits), steps);
    var s := Run(Init(permits), steps);
    AnswersOnce(s.delivered, op);
    if (op, Grant) in s.delivered {
      var i :| 0 <= i < |s.delivered| && s.delivered[i] == (op, Grant);
      assert Justified(s, s.delivered[i].0, s.delivered[i].1);
    }
    if op in s.started {
      assert Answerable(s, op);
    }
  }

  /** The operation's destructor detaches its node once more; by then it is in no queue. */
  lemma CompletedOperationsAreDetached(permits: int, steps: seq<Step>, op: Op)
    requires op in Run(Init(permits), steps).completed
    ensures Detach(Run(Init(permits), steps).sem, op) == Run(Init(permits), steps).sem
  {
    InitInv(permits);
    RunInv(Init(permits), steps);
    var s := Run(Init(permits), steps);
    var i :| 0 <= i < |s.delivered| && s.delivered[i].0 == op;
    assert Justified(s, s.delivered[i].0, s.delivered[i].1);
    WithoutAbsent(s.sem.waiters, op);
  }

  predicate HasGrant(s: State, op: Op) { op in s.immediate || op in s.popped }

  /** A completed operation that was given a permit was told so or was stopped, not both. */
  lemma GrantOrStop(s: State, op: Op)
    requires Inv(s) && HasGrant(s, op)
    ensures op in s.started && op !in s.sem.waiters
    ensures op in s.completed ==> ((op, Grant) in s.delivered <==> (op, Stopped) !in s.delivered)
    ensures (op, Refuse) !in s.delivered
  {
    OrderFacts(s);
    if op in s.popped { assert op in s.arrivals; }
    forall i | 0 <= i < |s.delivered| && s.delivered[i].0 == op ensures s.delivered[i].1 != Refuse {
      assert Justified(s, s.delivered[i].0, s.delivered[i].1);
    }
    if op in s.completed {
      var i :| 0 <= i < |s.delivered| && s.delivered[i].0 == op;
      assert s.delivered[i] == (op, Grant) || s.delivered[i] == (op, Stopped);
      forall j | 0 <= j < |s.delivered| && s.delivered[j].0 == op ensures j == i {}
    }
  }

  /** Exactly when a permit reaches the operation it was given to: in every reachable
      state with no completion in flight, unless a stop request won the race. */
  lemma GrantsReachUnlessStopped(permits: int, steps: seq<Step>, op: Op)
    requires var s := Run(Init(permits), steps); s.pending == {} && HasGrant(s, op)
    ensures var s := Run(Init(permits), steps);
            (op, Grant) in s.delivered <==> (op, Stopped) !in s.delivered
  {
    InitInv(permits);
    RunInv(Init(permits), steps);
    var s := Run(Init(permits), steps);
    GrantOrStop(s, op);
    assert Answerable(s, op);
  }

  /** Nobody asked the operation to stop. */
  predicate Asks(step: Step, op: Op) { step == RequestStop(op) || step == StartStopped(op) }

  ghost predicate Unasked(s: State, op: Op) {
    op !in s.stopping && (op, Stopped) !in s.pending && (op, Stopped) !in s.delivered
  }

  lemma UnaskedStays(s: State, step: Step, op: Op)
    requires Unasked(s, op) && !Asks(step, op)
    ensures Unasked(Next(s, step), op)
  {}

  lemma {:induction false} NeverAsked(s: State, steps: seq<Step>, op: Op)
    requires Unasked(s, op) && forall i :: 0 <= i < |steps| ==> !Asks(steps[i], op)
    ensures Unasked(Run(s, steps), op)
    decreases |steps|
  {
    if steps != [] {
      UnaskedStays(s, steps[0], op);
      hide Next;
      NeverAsked(Next(s, steps[0]), steps[1..], op);
    }
  }

  /** What a caller can rely on: an operation nobody asks to stop receives the permit
      it was given, as soon as its completion has run. */
  lemma UnstoppedGrantsArrive(permits: int, steps: seq<Step>, op: Op)
    requires forall i :: 0 <= i < |steps| ==> !Asks(steps[i], op)
    ensures var s := Run(Init(permits), steps);
            HasGrant(s, op) ==> (op, Grant) in s.pending || (op, Grant) in s.delivered
  {
    InitInv(permits);
    assert Unasked(Init(permits), op);
    RunInv(Init(permits), steps);
    NeverAsked(Init(permits), steps, op);
    hide Inv, Unasked, Init, Run;
    if HasGrant(Run(Init(permits), steps), op) {
      UnaskedGrant(Run(Init(permits), steps), op);
    }
  }

  lemma UnaskedGrant(s: State, op: Op)
    requires Inv(s) && Unasked(s, op) && HasGrant(s, op)
    ensures (op, Grant) in s.pending || (op, Grant) in s.delivered
  {
    GrantOrStop(s, op);
    assert Delivery(s) && Answerable(s, op);
    hide Order, Accounts;
    if op !in s.completed {
      var signal :| (op, signal) in s.pending;
      assert Justified(s, (op, signal).0, (op, signal).1);
    }
  }

  /** A grant can be lost: the permit was handed to a waiter whose stop request
      then won the race, so it reached nobody and came back to no one. */
  lemma GrantsCanBeLost()
    ensures var s := Next(Next(Next(Init(0), Start(7)), RequestStop(7)), ReleaseStep(1));
            var t := Next(Next(Next(s, DetachStep(7)), Finish(7, Stopped)), Finish(7, Grant));
            && s.popped == [7] && s.released == 1
            && t.popped == [7] && t.delivered == [(7, Stopped)] && t.pending == {} && t.sem == Sem(0, false, [])
  {
    var s2 := Next(Next(Init(0), Start(7)), RequestStop(7));
    assert s2.sem == Sem(0, false, [7]) && s2.arrivals == [7] && s2.stopping == {7};
    var s3 := Next(s2, ReleaseStep(1));
    assert s3.sem == Sem(0, false, []) && s3.popped == [7] && s3.pending == {(7, Grant)};
    var s4 := Next(s3, DetachStep(7));
    assert s4.sem == Sem(0, false, []) && s4.pending == {(7, Grant), (7, Stopped)};
    var s5 := Next(s4, Finish(7, Stopped));
    assert s5.completed == {7} && s5.pending == {(7, Grant)} && s5.delivered == [(7, Stopped)];
    var s6 := Next(s5, Finish(7, Grant));
    assert s6.pending == {};
  }
}
