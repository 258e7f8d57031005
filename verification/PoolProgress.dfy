/** Borrowing and returning: what the steps of the pool achieve, from every state a run can reach. */
module PoolProgress {
  import opened Semaphore
  import opened Pool
  import P = SemaphoreProtocol
  import opened SemaphoreProgress

  ghost predicate ReachedPool(s: State, size: nat, steps: seq<Step>) {
    size > 0 && s == Run(Create(size).value, steps)
  }

  /** Only answered operations have been acted on. */
  ghost predicate ActedOn(s: State) { forall op :: op in s.consumed ==> op in s.sem.completed }

  lemma ActedOnStays(s: State, step: Step)
    requires Inv(s) && ActedOn(s)
    ensures ActedOn(Next(s, step))
  {
    if step.Acquire? || step.Signal? || step.CloseSemaphore? {
      var p := if step.Acquire? then step.step else if step.Signal? then P.ReleaseStep(1) else P.CloseStep;
      P.NextDelivers(s.sem, p);
      assert s.sem.completed <= P.Next(s.sem, p).completed;
    }
    if step.Take? || step.GiveUp? {
      forall signal | (step.op, signal) in s.sem.delivered ensures step.op in s.sem.completed {
        var i :| 0 <= i < |s.sem.delivered| && s.sem.delivered[i] == (step.op, signal);
      }
    }
    hide P.Next, Inv;
  }

  lemma {:induction false} ActedOnRun(s: State, steps: seq<Step>)
    requires Inv(s) && ActedOn(s)
    ensures Inv(Run(s, steps)) && ActedOn(Run(s, steps))
    decreases |steps|
  {
    if steps != [] {
      ActedOnStays(s, steps[0]);
      NextInv(s, steps[0]);
      hide Next, Inv, ActedOn;
      ActedOnRun(Next(s, steps[0]), steps[1..]);
    }
  }

  lemma ReachedFacts(s: State, size: nat, steps: seq<Step>)
    requires ReachedPool(s, size, steps)
    ensures Inv(s) && ActedOn(s)
  {
    CreateInv(size);
    assert Create(size).value.consumed == {};
    ActedOnRun(Create(size).value, steps);
  }

  /** A new pool has every slot free, in order, and as many permits; an empty one is refused. */
  lemma CreateIsExact(size: nat)
    ensures Create(size).None? <==> size == 0
    ensures size > 0 ==>
      var s := Create(size).value;
      && |s.slots.free| == size && (forall i :: 0 <= i < size ==> s.slots.free[i] == i) && !s.slots.closed
      && s.sem.sem == Sem(size, false, []) && s.inUse == map[] && s.leases == map[]
  {}

  /** A task that finds an idle permit: after its acquire has completed it holds the
      oldest free slot. */
  lemma BorrowTakesTheOldest(s: State, size: nat, steps: seq<Step>, op: Op)
    requires ReachedPool(s, size, steps) && !s.slots.closed && s.sem.sem.permits > 0 && op !in s.sem.started
    ensures s.slots.free != []
    ensures var t := Next(Next(Next(s, Acquire(P.Start(op))), Acquire(P.Finish(op, P.Grant))), Take(op));
            && t.inUse == s.inUse[op := s.slots.free[0]] && t.slots == s.slots.(free := s.slots.free[1..])
            && t.leases == s.leases && t.signalling == s.signalling
            && t.sem.sem == s.sem.sem.(permits := s.sem.sem.permits - 1)
  {
    ReachedFacts(s, size, steps);
    FreeSlotsCover(s);
    assert P.Inv(s.sem) && !s.sem.sem.closed;
    WaitingIsOpen(s.sem, op);
    assert op !in s.consumed;
    var u := Next(s, Acquire(P.Start(op)));
    assert u.sem.sem == s.sem.sem.(permits := s.sem.sem.permits - 1) && (op, P.Grant) in u.sem.pending &&
        op !in u.sem.completed;
    FinishDelivers(u.sem, op, P.Grant);
    hide Inv, ReachedPool, ActedOn, P.Inv;
    var v := Next(u, Acquire(P.Finish(op, P.Grant)));
    assert Unanswered(v, op, P.Grant) && v.slots == s.slots;
  }

  /** A slot in the hands of a task, put back or leased and released: it goes behind the
      other free slots, and after the signal there is a permit more, or the longest
      waiting task has been granted one. */
  lemma ReturnGoesToTheBack(s: State, size: nat, steps: seq<Step>, op: Op, l: LeaseId)
    requires ReachedPool(s, size, steps) && !s.slots.closed && op in s.inUse && l !in s.leases
    ensures var h := Next(s, Hand(op, l));
            && h.leases == s.leases[l := Lease(s.inUse[op], true)] && h.inUse == s.inUse - {op} && h.slots == s.slots
            && Next(h, ReleaseLease(l)).slots.free == s.slots.free + [s.inUse[op]]
            && !Next(h, ReleaseLease(l)).leases[l].held
            && Next(h, ReleaseLease(l)).signalling == s.signalling + 1
            && l !in Next(Next(h, ReleaseLease(l)), Destroy(l)).leases
    ensures var p := Next(s, PutBack(op));
            && p.slots.free == s.slots.free + [s.inUse[op]] && op !in p.inUse && p.signalling == s.signalling + 1
    ensures var d := Next(s, Drop(op));
            op !in d.inUse && d.slots == s.slots && d.signalling == s.signalling
  {}

  /** A signal on its way gives the first waiting task a grant, or leaves a permit idle. */
  lemma SignalIsExact(s: State, size: nat, steps: seq<Step>)
    requires ReachedPool(s, size, steps) && !s.slots.closed && s.signalling > 0
    ensures var t := Next(s, Signal);
            && t.slots == s.slots && t.signalling == s.signalling - 1
            && t.sem.sem == (if s.sem.sem.waiters != [] then s.sem.sem.(waiters := s.sem.sem.waiters[1..])
                             else s.sem.sem.(permits := s.sem.sem.permits + 1))
  {
    ReachedFacts(s, size, steps);
    assert !s.sem.sem.closed;
  }

  /** The first task in the queue gets a slot as soon as one is returned. */
  lemma WaitersGetReturnedSlots(s: State, size: nat, steps: seq<Step>, l: LeaseId)
    requires ReachedPool(s, size, steps) && !s.slots.closed && s.sem.sem.waiters != []
    requires l in s.leases && s.leases[l].held
    ensures var w := s.sem.sem.waiters[0];
            var r := Next(Next(s, ReleaseLease(l)), Signal);
            var t := Next(Next(r, Acquire(P.Finish(w, P.Grant))), Take(w));
            w in t.inUse && t.inUse[w] == (s.slots.free + [s.leases[l].slot])[0]
  {
    ReachedFacts(s, size, steps);
    var w := s.sem.sem.waiters[0];
    assert P.Inv(s.sem) && !s.sem.sem.closed;
    WaitingIsOpen(s.sem, w);
    assert w !in s.consumed;
    var q := Next(s, ReleaseLease(l));
    assert q.slots.free == s.slots.free + [s.leases[l].slot] && q.sem == s.sem && q.signalling > 0 &&
        q.consumed == s.consumed;
    var r := Next(q, Signal);
    assert s.sem.sem.waiters[..1][0] == w && w in s.sem.sem.waiters[..1];
    assert (w, P.Grant) in r.sem.pending && w !in r.sem.completed && r.slots == q.slots && r.consumed == s.consumed;
    hide Inv, ReachedPool, ActedOn, P.Inv;
    FinishDelivers(r.sem, w, P.Grant);
    var v := Next(r, Acquire(P.Finish(w, P.Grant)));
    assert Unanswered(v, w, P.Grant) && v.slots == r.slots;
  }

  /** A task that gives up its grant takes no slot with it. */
  lemma GivenUpIsOver(s: State, op: Op)
    requires Unanswered(s, op, P.Grant)
    ensures var t := Next(s, GiveUp(op));
            Next(t, Take(op)) == t && t.slots == s.slots && t.inUse == s.inUse && op in t.consumed
  {}

  // ---------- closing ----------

  /** Closing forgets the free slots at once, and then the semaphore turns everybody away. */
  lemma ClosingIsExact(s: State)
    ensures var t := Next(s, CloseSlots);
            && t.slots == Slots([], true) && t.closing == s.closing + 1
            && Next(t, CloseSemaphore).sem.sem.closed && Next(t, CloseSemaphore).closing == s.closing
  {}

  /** After that nobody gets a slot any more, whatever happens. */
  lemma {:induction false} ClosedPoolsServeNobody(s: State, steps: seq<Step>, op: Op)
    requires s.slots.closed
    ensures Run(s, steps).slots.closed && (op in Run(s, steps).inUse ==> op in s.inUse)
    decreases |steps|
  {
    if steps != [] {
      ClosedStep(s, steps[0], op);
      hide Next;
      ClosedPoolsServeNobody(Next(s, steps[0]), steps[1..], op);
    }
  }

  lemma ClosedStep(s: State, step: Step, op: Op)
    requires s.slots.closed
    ensures Next(s, step).slots.closed && (op in Next(s, step).inUse ==> op in s.inUse)
  {
    hide P.Next;
  }
}
