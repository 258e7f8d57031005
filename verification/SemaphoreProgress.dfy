/** What the steps of the semaphore achieve, from every state a run can reach. */
module SemaphoreProgress {
  import opened Semaphore
  import opened SemaphoreProtocol

  ghost predicate Reached(s: State, permits: int, steps: seq<Step>) { s == Run(Init(permits), steps) }

  lemma ReachedInv(s: State, permits: int, steps: seq<Step>)
    requires Reached(s, permits, steps)
    ensures Inv(s)
  {
    InitInv(permits);
    RunInv(Init(permits), steps);
  }

  lemma WaitingIsOpen(s: State, op: Op)
    requires Inv(s) && (op in s.sem.waiters || op !in s.started)
    ensures op !in s.completed
  {
    if op in s.completed { CompletedIsDone(s, op); }
  }

  lemma CompletedIsDone(s: State, op: Op)
    requires Inv(s) && op in s.completed
    ensures op in s.started && op !in s.sem.waiters
  {
    var i :| 0 <= i < |s.delivered| && s.delivered[i].0 == op;
    assert Justified(s, s.delivered[i].0, s.delivered[i].1);
  }

  /** A signal on its way to an operation that has not completed is delivered by its completion. */
  lemma FinishDelivers(s: State, op: Op, signal: Signal)
    requires (op, signal) in s.pending && op !in s.completed
    ensures var t := Next(s, Finish(op, signal));
            t.delivered == s.delivered + [(op, signal)] && op in t.completed && t.sem == s.sem
  {}

  /** Starting: refused by a closed semaphore, granted from an idle permit, and queued
      behind all others if there is none. */
  lemma StartIsExact(s: State, permits: int, steps: seq<Step>, op: Op)
    requires Reached(s, permits, steps) && op !in s.started
    ensures var t := Next(s, Start(op));
            if s.sem.closed then Next(t, Finish(op, Refuse)).delivered == s.delivered + [(op, Refuse)] && t.sem == s.sem
            else if s.sem.permits > 0
            then && Next(t, Finish(op, Grant)).delivered == s.delivered + [(op, Grant)]
                 && t.sem == s.sem.(permits := s.sem.permits - 1)
            else t.sem == s.sem.(waiters := s.sem.waiters + [op]) && t.pending == s.pending
  {
    ReachedInv(s, permits, steps);
    WaitingIsOpen(s, op);
    var t := Next(s, Start(op));
    assert s.sem.closed ==> t.sem == s.sem && (op, Refuse) in t.pending;
    assert !s.sem.closed && s.sem.permits > 0 ==>
      t.sem == s.sem.(permits := s.sem.permits - 1) && (op, Grant) in t.pending;
    assert t.delivered == s.delivered && op !in t.completed;
    assert !s.sem.closed && s.sem.permits == 0 ==>
      t.sem == s.sem.(waiters := s.sem.waiters + [op]) && t.pending == s.pending;
    hide Inv, Reached, Next;
    if s.sem.closed {
      FinishDelivers(t, op, Refuse);
    } else if s.sem.permits > 0 {
      FinishDelivers(t, op, Grant);
    }
  }

  /** Releasing one permit completes the longest waiting operation, or leaves the permit idle. */
  lemma ReleaseIsExact(s: State, permits: int, steps: seq<Step>)
    requires Reached(s, permits, steps) && !s.sem.closed
    ensures var t := Next(s, ReleaseStep(1));
            if s.sem.waiters != []
            then && t.sem == s.sem.(waiters := s.sem.waiters[1..])
                 && Next(t, Finish(s.sem.waiters[0], Grant)).delivered == s.delivered + [(s.sem.waiters[0], Grant)]
            else t.sem == s.sem.(permits := s.sem.permits + 1)
  {
    ReachedInv(s, permits, steps);
    var t := Next(s, ReleaseStep(1));
    if s.sem.waiters != [] {
      var w := s.sem.waiters[0];
      WaitingIsOpen(s, w);
      assert s.sem.waiters[..1][0] == w && w in s.sem.waiters[..1];
      assert (w, Grant) in t.pending && w !in t.completed;
      FinishDelivers(t, w, Grant);
    }
  }

  /** A stop request takes a waiting operation out of the queue and completes it; an
      operation started after its stop completes at once. */
  lemma StopIsExact(s: State, permits: int, steps: seq<Step>, op: Op)
    requires Reached(s, permits, steps)
    ensures op in s.sem.waiters ==>
      var t := Next(Next(s, RequestStop(op)), DetachStep(op));
      && op !in t.sem.waiters && t.sem == s.sem.(waiters := Without(s.sem.waiters, op))
      && Next(t, Finish(op, Stopped)).delivered == s.delivered + [(op, Stopped)]
    ensures op !in s.started ==>
      Next(Next(s, StartStopped(op)), Finish(op, Stopped)).delivered == s.delivered + [(op, Stopped)]
  {
    ReachedInv(s, permits, steps);
    if op in s.sem.waiters {
      WaitingIsOpen(s, op);
      OrderFacts(s);
      var i :| 0 <= i < |s.sem.waiters| && s.sem.waiters[i] == op;
      WithoutAt(s.sem.waiters, i);
      RemovedAt(s.sem.waiters, i);
      hide Inv, Reached, Without;
      var u := Next(s, RequestStop(op));
      assert u == s.(stopping := s.stopping + {op});
      var t := Next(u, DetachStep(op));
      FinishDelivers(t, op, Stopped);
    }
    if op !in s.started {
      WaitingIsOpen(s, op);
      FinishDelivers(Next(s, StartStopped(op)), op, Stopped);
    }
  }

  // ---------- everybody gets an answer ----------

  predicate Winds(step: Step) { step.CloseStep? || step.Finish? }

  ghost predicate AllWind(steps: seq<Step>) { forall i :: 0 <= i < |steps| ==> Winds(steps[i]) }

  lemma {:induction false} FinishAll(s: State) returns (steps: seq<Step>)
    requires Inv(s)
    ensures AllWind(steps) && Inv(Run(s, steps))
    ensures var t := Run(s, steps);
            t.pending == {} && t.sem == s.sem && t.started == s.started
    decreases s.pending
  {
    steps := [];
    if s.pending != {} {
      var p :| p in s.pending;
      var step := Finish(p.0, p.1);
      var t := Next(s, step);
      assert t.pending == s.pending - {p} && t.sem == s.sem && t.started == s.started;
      NextOrderAndAccounts(s, step);
      NextDelivery(s, step);
      assert Inv(t);
      hide Inv, Next;
      var more := FinishAll(t);
      steps := [step] + more;
      assert steps[1..] == more;
    }
  }

  /** From every reachable state: once the semaphore is closed and the completions on
      their way have run, every operation ever started has been answered exactly once. */
  lemma ClosingAnswersEverybody(s: State, permits: int, steps: seq<Step>) returns (more: seq<Step>)
    requires Reached(s, permits, steps)
    ensures AllWind(more)
    ensures var t := Run(s, more);
            t.sem.closed && t.pending == {} && t.started == s.started
            && forall op :: op in s.started ==> Answers(t.delivered, op) == 1
  {
    ReachedInv(s, permits, steps);
    var c := Next(s, CloseStep);
    NextOrderAndAccounts(s, CloseStep);
    NextDelivery(s, CloseStep);
    assert c.sem.closed && c.started == s.started && Inv(c);
    var rest := FinishAll(c);
    more := [CloseStep] + rest;
    assert more[1..] == rest;
    var t := Run(c, rest);
    forall op | op in s.started ensures Answers(t.delivered, op) == 1 { Settled(t, op); }
  }

  lemma Settled(t: State, op: Op)
    requires Inv(t) && t.sem.closed && t.pending == {} && op in t.started
    ensures Answers(t.delivered, op) == 1
  {
    AnswersOnce(t.delivered, op);
    assert Answerable(t, op);
  }
}
