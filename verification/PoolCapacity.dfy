/** Where the capacity of an open pool is: what stop requests and timeouts can cost, and that nothing else does. */
module PoolCapacity {
  import opened Semaphore
  import opened Pool
  import P = SemaphoreProtocol

  // ---------- where the grants went ----------

  /** Grants whose task has yet to take a slot. */
  ghost function ToCome(s: State): set<Op> {
    set op | op in GrantedOps(s.sem) && (op !in s.sem.completed || Unanswered(s, op, P.Grant))
  }

  /** Grants popped for an operation whose stop request won the race. */
  ghost function Stolen(s: State): set<Op> {
    set op | op in GrantedOps(s.sem) && (op, P.Stopped) in s.sem.delivered
  }

  /** Grants delivered to a task that did not take a slot, because its timeout had won. */
  ghost function GivenUp(s: State): set<Op> {
    set op | op in GrantedOps(s.sem) && (op, P.Grant) in s.sem.delivered && op in s.consumed && op !in s.takers
  }

  lemma DisjointCount(a: set<Op>, b: set<Op>)
    requires a * b == {}
    ensures |a + b| == |a| + |b|
  {}

  lemma GrantFate(s: State, op: Op)
    requires Inv(s) && op in GrantedOps(s.sem)
    ensures op in s.sem.completed ==> ((op, P.Grant) in s.sem.delivered <==> (op, P.Stopped) !in s.sem.delivered)
    ensures op !in s.sem.completed ==> (op, P.Grant) !in s.sem.delivered && (op, P.Stopped) !in s.sem.delivered
  {
    P.GrantOrStop(s.sem, op);
    hide OneOwner, Complete, Counts, P.Order, P.Accounts;
    if op !in s.sem.completed {
      forall i | 0 <= i < |s.sem.delivered| ensures s.sem.delivered[i].0 != op {}
    }
  }

  lemma GrantsSplit(s: State)
    requires Inv(s)
    ensures GrantedOps(s.sem) == ((s.takers + ToCome(s)) + Stolen(s)) + GivenUp(s)
    ensures s.takers * ToCome(s) == {} && (s.takers + ToCome(s)) * Stolen(s) == {}
    ensures ((s.takers + ToCome(s)) + Stolen(s)) * GivenUp(s) == {}
  {
    forall op | op in s.takers ensures op in GrantedOps(s.sem) && (op, P.Grant) in s.sem.delivered && op in s.consumed {
      TakersAreGranted(s, op);
    }
    forall op | op in GrantedOps(s.sem)
      ensures op in s.sem.completed ==> ((op, P.Grant) in s.sem.delivered <==> (op, P.Stopped) !in s.sem.delivered)
      ensures op !in s.sem.completed ==> (op, P.Grant) !in s.sem.delivered && (op, P.Stopped) !in s.sem.delivered
    {
      GrantFate(s, op);
    }
    hide Inv, GrantedOps;
  }

  /** Every grant was taken, is still to come, was stolen by a stop or was given up. */
  lemma GrantsPartition(s: State)
    requires Inv(s)
    ensures Grants(s.sem) == |s.takers| + |ToCome(s)| + |Stolen(s)| + |GivenUp(s)|
  {
    GrantedCount(s.sem);
    GrantsSplit(s);
    hide *;
    DisjointCount(s.takers, ToCome(s));
    DisjointCount(s.takers + ToCome(s), Stolen(s));
    DisjointCount((s.takers + ToCome(s)) + Stolen(s), GivenUp(s));
  }

  /** While the pool is open, in every interleaving, the free slots are the idle
      permits, the signals and grants on their way, and what stops and timeouts cost. */
  lemma CapacityAccounts(size: nat, steps: seq<Step>)
    requires size > 0
    ensures var s := Run(Create(size).value, steps);
            !s.slots.closed ==>
              |s.slots.free| == s.sem.sem.permits + s.signalling + |ToCome(s)| + |Stolen(s)| + |GivenUp(s)|
  {
    CreateInv(size);
    RunInv(Create(size).value, steps);
    var s := Run(Create(size).value, steps);
    hide Run, Inv, Create, ToCome, Stolen, GivenUp, Grants;
    if !s.slots.closed {
      FreeSlotsCover(s);
      GrantsPartition(s);
    }
  }

  // ---------- runs in which nobody stops ----------

  /** No stop request, no timeout, no task dropped with a slot in its hands. */
  predicate CalmStep(step: Step) {
    && (step.Acquire? ==> !step.step.RequestStop? && !step.step.StartStopped?)
    && !step.GiveUp? && !step.Drop?
  }

  ghost predicate Calm(s: State) {
    && (forall op :: P.Unasked(s.sem, op))
    && (!s.slots.closed ==> s.consumed == s.takers && s.lost == {})
  }

  lemma CalmSemaphore(s: State, step: P.Step)
    requires (forall op :: P.Unasked(s.sem, op)) && !step.RequestStop? && !step.StartStopped?
    ensures forall op :: P.Unasked(P.Next(s.sem, step), op)
  {
    forall op ensures P.Unasked(P.Next(s.sem, step), op) { P.UnaskedStays(s.sem, step, op); }
  }

  lemma CalmStays(s: State, step: Step)
    requires Inv(s) && Calm(s) && CalmStep(step)
    ensures Calm(Next(s, step))
  {
    hide P.Unasked, P.Next;
    match step
    case Acquire(st) => CalmSemaphore(s, st);
    case Signal => CalmSemaphore(s, P.ReleaseStep(1));
    case CloseSemaphore => CalmSemaphore(s, P.CloseStep);
    case Take(op) =>
      if !s.slots.closed && Unanswered(s, op, P.Grant) { FreeSlotsCover(s); }
    case _ =>
  }

  lemma {:induction false} CalmRun(s: State, steps: seq<Step>)
    requires Inv(s) && Calm(s) && forall i :: 0 <= i < |steps| ==> CalmStep(steps[i])
    ensures Calm(Run(s, steps))
    decreases |steps|
  {
    if steps != [] {
      CalmStays(s, steps[0]);
      NextInv(s, steps[0]);
      hide Inv, Calm, Next, CalmStep;
      CalmRun(Next(s, steps[0]), steps[1..]);
    }
  }

  /** A pool nobody stops loses no capacity: while it is open every slot is free, in
      use by a task or held by a lease, and every free slot is matched by a permit, or
      by a signal or a grant on its way. */
  lemma CalmPoolsLoseNothing(size: nat, steps: seq<Step>, i: nat)
    requires size > 0 && forall k :: 0 <= k < |steps| ==> CalmStep(steps[k])
    ensures var s := Run(Create(size).value, steps);
            !s.slots.closed ==>
              && |s.slots.free| == s.sem.sem.permits + s.signalling + |ToCome(s)|
              && (i < size ==> i in s.slots.free || (exists op :: Using(s, op, i)) || (exists l :: Holding(s, l, i)))
  {
    var s0 := Create(size).value;
    CreateInv(size);
    CreateCalm(size);
    CalmRun(s0, steps);
    CapacityAccounts(size, steps);
    SlotsHaveOneOwner(size, steps, i);
    hide Run, Inv, Create, ToCome, P.Next;
    var s := Run(s0, steps);
    if !s.slots.closed {
      forall op ensures op !in Stolen(s) && op !in GivenUp(s) { assert P.Unasked(s.sem, op); }
      assert Stolen(s) == {} && GivenUp(s) == {};
    }
  }

  lemma CreateCalm(size: nat)
    requires size > 0
    ensures Calm(Create(size).value)
  {
    forall op ensures P.Unasked(P.Next(P.Init(0), P.ReleaseStep(size)), op) {
      P.UnaskedStays(P.Init(0), P.ReleaseStep(size), op);
    }
  }
}
