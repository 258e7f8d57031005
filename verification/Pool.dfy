/**
  The connection pool: a deque of free slots under one lock, a semaphore under
  another, and leases that move between owners.  The locked sections are
  functions on `Slots`, implemented by `PoolImpl`; the protocol interleaves them
  freely with the steps of the semaphore protocol.
 */
module Pool {
  import opened Wrappers
  import opened Semaphore
  import P = SemaphoreProtocol

  type Op = P.Op
  type LeaseId = nat

  datatype Slots = Slots(free: seq<nat>, closed: bool)

  datatype Taken = Slot(index: nat) | PoolClosed | StateInvalid

  function TakeIndex(s: Slots, acquired: bool): (Slots, Taken) {
    if !acquired || s.closed then (s, PoolClosed)
    else if s.free == [] then (s, StateInvalid)
    else (s.(free := s.free[1..]), Slot(s.free[0]))
  }

  /** The second part says whether the semaphore is to be signalled. */
  function PutIndex(s: Slots, index: nat): (Slots, bool) {
    if s.closed then (s, false) else (s.(free := s.free + [index]), true)
  }

  function Shut(s: Slots): Slots {
    Slots([], true)
  }

  // ---------- the objects ----------

  class PoolImpl {
    var available: seq<nat>
    var closed: bool

    ghost function State(): Slots
      reads this
    {
      Slots(available, closed)
    }

    method TakeLocked(acquired: bool) returns (r: Taken)
      modifies this`available
      ensures (State(), r) == TakeIndex(old(State()), acquired)
    {
      if !acquired {
        return PoolClosed;
      }
      if closed {
        return PoolClosed;
      }
      if available == [] {
        return StateInvalid;
      }
      r := Slot(available[0]);
      available := available[1..];
    }

    method ReleaseIndexLocked(index: nat) returns (notify: bool)
      modifies this`available
      ensures (State(), notify) == PutIndex(old(State()), index)
    {
      notify := false;
      if !closed {
        available := available + [index];
        notify := true;
      }
    }

    method CloseLocked()
      modifies this
      ensures State() == Shut(old(State()))
    {
      closed := true;
      available := [];
    }
  }

  class PooledConnection {
    var impl: PoolImpl?
    var index: nat
    var held: bool

    constructor (impl: PoolImpl?, index: nat)
      ensures this.impl == impl && this.index == index && held == (impl != null)
    {
      this.impl, this.index, held := impl, index, impl != null;
    }

    predicate IsValid()
      reads this
    {
      held && impl != null
    }

    /** Gives the slot back at most once. */
    method Release() returns (notify: bool)
      modifies this`held, impl
      ensures !IsValid() && impl == old(impl)
      ensures old(IsValid()) ==> (impl.State(), notify) == PutIndex(old(impl.State()), index)
      ensures !old(IsValid()) ==> !notify && held == old(held) && (impl != null ==> impl.State() == old(impl.State()))
    {
      notify := false;
      if !held || impl == null {
        return;
      }
      notify := impl.ReleaseIndexLocked(index);
      held := false;
    }

    /** Move assignment: gives up its own slot, then becomes the owner of the other's. */
    method Assign(other: PooledConnection) returns (notify: bool)
      modifies this, other, impl
      ensures this == other ==> !notify && impl == old(impl) && index == old(index) && held == old(held)
      ensures this == other && impl != null ==> impl.State() == old(impl.State())
      ensures this != other ==>
                && IsValid() == old(other.IsValid()) && impl == old(other.impl) && index == old(other.index)
                && !other.IsValid() && other.impl == null
      ensures this != other && old(IsValid()) ==>
                old(impl) != null && (old(impl).State(), notify) == PutIndex(old(impl.State()), old(index))
      ensures this != other && !old(IsValid()) ==>
                !notify && (old(impl) != null ==> old(impl).State() == old(impl.State()))
      ensures this != other && old(other.impl) != null && !(old(IsValid()) && old(impl) == old(other.impl)) ==>
                old(other.impl).State() == old(other.impl.State())
    {
      notify := false;
      if this == other {
        return;
      }
      notify := Release();
      impl := other.impl;
      index := other.index;
      held := other.held;
      other.impl := null;
      other.index := 0;
      other.held := false;
    }
  }

  // ---------- the protocol ----------

  datatype Lease = Lease(slot: nat, held: bool)

  datatype State = State(
    size: nat,
    slots: Slots,
    sem: P.State,
    /** Answers of the semaphore already acted on. */
    consumed: set<Op>,
    /** Slots between being taken and being leased or put back. */
    inUse: map<Op, nat>,
    leases: map<LeaseId, Lease>,
    /** Put-backs whose signal is still to be sent, and closes whose semaphore is still open. */
    signalling: nat,
    closing: nat,
    invalid: bool,
    // history, never read by a step
    takers: set<Op>,
    signals: nat,
    lost: set<nat>)

  datatype Step =
    | Acquire(step: P.Step)
    | Take(op: Op)
    | GiveUp(op: Op)
    | PutBack(op: Op)
    | Drop(op: Op)
    | Hand(op: Op, lease: LeaseId)
    | Move(from: LeaseId, to: LeaseId)
    | ReleaseLease(lease: LeaseId)
    | Destroy(lease: LeaseId)
    | Signal
    | CloseSlots
    | CloseSemaphore

  function Indices(n: nat): seq<nat> {
    seq(n, i requires 0 <= i < n => i)
  }

  /** A pool of no connections is refused. */
  function Create(size: nat): Option<State> {
    if size == 0 then None
    else Some(State(size, Slots(Indices(size), false), P.Next(P.Init(0), P.ReleaseStep(size)),
                    {}, map[], map[], 0, 0, false, {}, 0, {}))
  }

  /** The steps an acquiring task takes by itself. */
  predicate IsAcquireStep(step: P.Step) {
    !step.ReleaseStep? && !step.CloseStep?
  }

  function Return(s: State, index: nat): State {
    var (slots, notify) := PutIndex(s.slots, index);
    if notify then s.(slots := slots, signalling := s.signalling + 1)
    else s.(lost := s.lost + {index})
  }

  predicate Unanswered(s: State, op: Op, signal: P.Signal) {
    (op, signal) in s.sem.delivered && op !in s.consumed
  }

  function Next(s: State, step: Step): State {
    match step
    case Acquire(st) => if IsAcquireStep(st) then s.(sem := P.Next(s.sem, st)) else s
    case Take(op) =>
      if !Unanswered(s, op, P.Grant) then s
      else
        var (slots, taken) := TakeIndex(s.slots, true);
        var s1 := s.(slots := slots, consumed := s.consumed + {op});
        (match taken
         case PoolClosed => s1
         case StateInvalid => s1.(invalid := true)
         case Slot(i) => s1.(inUse := s.inUse[op := i], takers := s.takers + {op}))
    case GiveUp(op) =>
      if Unanswered(s, op, P.Grant) || Unanswered(s, op, P.Refuse) || Unanswered(s, op, P.Stopped)
      then s.(consumed := s.consumed + {op}) else s
    case PutBack(op) =>
      if op !in s.inUse then s else Return(s.(inUse := s.inUse - {op}), s.inUse[op])
    case Drop(op) =>
      if op !in s.inUse then s else s.(inUse := s.inUse - {op}, lost := s.lost + {s.inUse[op]})
    case Hand(op, l) =>
      if op !in s.inUse || l in s.leases then s
      else s.(inUse := s.inUse - {op}, leases := s.leases[l := Lease(s.inUse[op], true)])
    case Move(from, to) =>
      if from !in s.leases || from == to || (to in s.leases && s.leases[to].held) then s
      else s.(leases := s.leases[to := s.leases[from]][from := Lease(0, false)])
    case ReleaseLease(l) =>
      if l !in s.leases || !s.leases[l].held then s
      else Return(s.(leases := s.leases[l := s.leases[l].(held := false)]), s.leases[l].slot)
    case Destroy(l) =>
      if l !in s.leases || s.leases[l].held then s else s.(leases := s.leases - {l})
    case Signal =>
      if s.signalling == 0 then s
      else s.(sem := P.Next(s.sem, P.ReleaseStep(1)), signalling := s.signalling - 1, signals := s.signals + 1)
    case CloseSlots =>
      s.(slots := Shut(s.slots), closing := s.closing + 1, lost := s.lost + set i | i in s.slots.free)
    case CloseSemaphore =>
      if s.closing == 0 then s else s.(sem := P.Next(s.sem, P.CloseStep), closing := s.closing - 1)
  }

  function Run(s: State, steps: seq<Step>): State
    decreases |steps|
  {
    if steps == [] then s else Run(Next(s, steps[0]), steps[1..])
  }

  // ---------- the objects follow the protocol ----------

  /** The lease object `conn` of the pool stands for the lease `l` of the protocol. */
  ghost predicate StandsFor(conn: PooledConnection, pool: PoolImpl, s: State, l: LeaseId)
    reads conn, pool
  {
    && pool.State() == s.slots && l in s.leases
    && conn.IsValid() == s.leases[l].held
    && (conn.IsValid() ==> conn.impl == pool && conn.index == s.leases[l].slot)
  }

  /** An explicit release, or a destructor, is the protocol's release step. */
  method ReleaseIsAStep(conn: PooledConnection, pool: PoolImpl, ghost s: State, ghost l: LeaseId) returns (notify: bool)
    requires StandsFor(conn, pool, s, l) && (conn.impl == null || conn.impl == pool)
    modifies conn`held, pool
    ensures StandsFor(conn, pool, Next(s, ReleaseLease(l)), l)
    ensures Next(s, ReleaseLease(l)).signalling == s.signalling + if notify then 1 else 0
  {
    notify := conn.Release();
  }

  /** A move assignment is the protocol's release of the target followed by its move. */
  method AssignIsTwoSteps(
    to: PooledConnection, from: PooledConnection, pool: PoolImpl,
    ghost s: State, ghost toId: LeaseId, ghost fromId: LeaseId)
    returns (notify: bool)
    requires to != from && toId != fromId && StandsFor(to, pool, s, toId) && StandsFor(from, pool, s, fromId)
    requires (to.impl == null || to.impl == pool) && (from.impl == null || from.impl == pool)
    modifies to, from, pool
    ensures var t := Next(Next(s, ReleaseLease(toId)), Move(fromId, toId));
            && StandsFor(to, pool, t, toId) && StandsFor(from, pool, t, fromId)
            && t.signalling == s.signalling + if notify then 1 else 0
  {
    notify := to.Assign(from);
  }

  // ---------- who owns a slot ----------

  predicate Using(s: State, op: Op, i: nat) { op in s.inUse && s.inUse[op] == i }

  predicate Holding(s: State, l: LeaseId, i: nat) { l in s.leases && s.leases[l].held && s.leases[l].slot == i }

  ghost predicate OneOwner(s: State) {
    && Distinct(s.slots.free)
    && (forall i :: i in s.slots.free ==> i < s.size && i !in s.lost)
    && (forall op, i: nat :: Using(s, op, i) ==> i < s.size && i !in s.slots.free && i !in s.lost)
    && (forall l, i: nat :: Holding(s, l, i) ==> i < s.size && i !in s.slots.free && i !in s.lost)
    && (forall op, op', i: nat :: Using(s, op, i) && Using(s, op', i) ==> op == op')
    && (forall l, l', i: nat :: Holding(s, l, i) && Holding(s, l', i) ==> l == l')
    && (forall op, l, i: nat :: Using(s, op, i) ==> !Holding(s, l, i))
    && (forall i :: i in s.lost ==> i < s.size)
  }

  /** Every slot is somewhere. */
  ghost predicate Located(s: State, i: nat) {
    i in s.slots.free || i in s.lost || (exists op :: Using(s, op, i)) || (exists l :: Holding(s, l, i))
  }

  ghost predicate Complete(s: State) {
    forall i :: 0 <= i < s.size ==> Located(s, i)
  }

  // ---------- counting ----------

  ghost function Grants(s: P.State): nat {
    |s.immediate| + |s.popped|
  }

  ghost predicate Counts(s: State) {
    && (s.sem.sem.closed || s.closing > 0 ==> s.slots.closed)
    && (forall op :: op in s.takers ==> op in s.consumed && (op, P.Grant) in s.sem.delivered)
    && (forall op :: op in s.inUse ==> op in s.consumed)
    && (!s.slots.closed ==>
          && s.sem.initial + s.sem.released == s.size + s.signals
          && |s.slots.free| + |s.takers| == s.size + s.signals + s.signalling)
    && !s.invalid
  }

  ghost predicate Inv(s: State) {
    P.Inv(s.sem) && OneOwner(s) && Complete(s) && Counts(s)
  }

  ghost function Members(q: seq<Op>): set<Op> {
    set op | op in q
  }

  ghost function GrantedOps(s: P.State): set<Op> {
    s.immediate + Members(s.popped)
  }

  lemma {:induction false} DistinctCount(q: seq<Op>)
    requires Distinct(q)
    ensures |Members(q)| == |q|
  {
    if q != [] {
      DistinctCount(q[1..]);
      assert q[0] !in Members(q[1..]) && Members(q) == {q[0]} + Members(q[1..]);
    }
  }

  lemma GrantedCount(s: P.State)
    requires P.Inv(s)
    ensures |GrantedOps(s)| == Grants(s)
  {
    P.OrderFacts(s);
    var all := s.popped + s.flushed + s.sem.waiters;
    forall i, j | 0 <= i < j < |s.popped| ensures s.popped[i] != s.popped[j] {
      assert all[i] == s.popped[i] && all[j] == s.popped[j];
    }
    DistinctCount(s.popped);
    assert s.immediate * Members(s.popped) == {};
  }

  lemma TakersAreGranted(s: State, op: Op)
    requires P.Inv(s.sem) && (op, P.Grant) in s.sem.delivered
    ensures op in GrantedOps(s.sem)
  {
    var i :| 0 <= i < |s.sem.delivered| && s.sem.delivered[i] == (op, P.Grant);
    assert P.Justified(s.sem, s.sem.delivered[i].0, s.sem.delivered[i].1);
  }

  lemma SubsetCount(a: set<Op>, b: set<Op>)
    requires a <= b
    ensures |a| <= |b|
  {
    assert b == a + (b - a);
  }

  /** The two counters sit under different locks, yet the free slots always cover
      the idle permits, the grants not yet acted on and the signals on their way. */
  lemma FreeSlotsCover(s: State)
    requires Inv(s) && !s.slots.closed
    ensures |s.slots.free| == s.sem.sem.permits + (Grants(s.sem) - |s.takers|) + s.signalling
    ensures |s.takers| <= Grants(s.sem)
    ensures forall op :: Unanswered(s, op, P.Grant) ==> |s.slots.free| > s.sem.sem.permits + s.signalling
  {
    GrantedCount(s.sem);
    forall op | op in s.takers ensures op in GrantedOps(s.sem) { TakersAreGranted(s, op); }
    SubsetCount(s.takers, GrantedOps(s.sem));
    forall op | Unanswered(s, op, P.Grant) ensures |s.slots.free| > s.sem.sem.permits + s.signalling {
      TakersAreGranted(s, op);
      assert op !in s.takers;
      SubsetCount(s.takers + {op}, GrantedOps(s.sem));
    }
  }

  // ---------- every step keeps the invariant ----------

  /** An acquire step moves no slot and no permit of the pool's own counters. */
  lemma AcquireKeeps(s: State, step: P.Step)
    requires Inv(s)
    ensures Inv(Next(s, Acquire(step)))
  {
    if IsAcquireStep(step) {
      SemaphoreKeeps(s, step);
      var t := Next(s, Acquire(step));
      assert t.sem.released == s.sem.released && t.sem.initial == s.sem.initial;
      SameSlots(s, t);
    }
  }

  lemma SemaphoreKeeps(s: State, step: P.Step)
    requires P.Inv(s.sem)
    ensures P.Inv(P.Next(s.sem, step))
    ensures s.sem.delivered <= P.Next(s.sem, step).delivered
    ensures !step.CloseStep? ==> P.Next(s.sem, step).sem.closed == s.sem.sem.closed
    ensures P.Next(s.sem, step).initial == s.sem.initial
    ensures P.Next(s.sem, step).released == s.sem.released
              + (if step.ReleaseStep? && step.permits > 0 && !s.sem.sem.closed then step.permits else 0)
  {
    P.NextOrderAndAccounts(s.sem, step);
    P.NextDelivery(s.sem, step);
  }

  /** Ownership looks only at the slots, the leases and what is lost. */
  lemma SameSlots(s: State, t: State)
    requires t.slots.free == s.slots.free && t.inUse == s.inUse && t.leases == s.leases
    requires t.lost == s.lost && t.size == s.size
    ensures OneOwner(s) ==> OneOwner(t)
    ensures Complete(s) ==> Complete(t)
  {
    forall op, i: nat ensures Using(t, op, i) == Using(s, op, i) {}
    forall l, i: nat ensures Holding(t, l, i) == Holding(s, l, i) {}
    if Complete(s) {
      forall i | 0 <= i < t.size ensures Located(t, i) { SameLocation(s, t, i); }
    }
  }

  lemma SameLocation(s: State, t: State, i: nat)
    requires Located(s, i)
    requires i in s.slots.free ==> Located(t, i)
    requires i in s.lost ==> Located(t, i)
    requires forall op :: Using(s, op, i) ==> Located(t, i) || Using(t, op, i)
    requires forall l :: Holding(s, l, i) ==> Located(t, i) || Holding(t, l, i)
    ensures Located(t, i)
  {
    if op :| Using(s, op, i) {
      assert Located(t, i) || Using(t, op, i);
    } else if l :| Holding(s, l, i) {
      assert Located(t, i) || Holding(t, l, i);
    }
  }

  lemma TakeKeeps(s: State, op: Op)
    requires Inv(s) && Unanswered(s, op, P.Grant)
    ensures Inv(Next(s, Take(op)))
  {
    if s.slots.closed {
      SameSlots(s, Next(s, Take(op)));
    } else {
      FreeSlotsCover(s);
      TakeMoves(s, Next(s, Take(op)), op);
      assert |s.takers + {op}| == |s.takers| + 1;
    }
  }

  lemma TakeMoves(s: State, t: State, op: Op)
    requires OneOwner(s) && Complete(s) && s.slots.free != [] && op !in s.inUse
    requires t.slots.free == s.slots.free[1..] && t.inUse == s.inUse[op := s.slots.free[0]]
    requires t.leases == s.leases && t.lost == s.lost && t.size == s.size
    ensures OneOwner(t) && Complete(t)
  {
    var i := s.slots.free[0];
    assert i in s.slots.free;
    forall k | k in t.slots.free ensures k in s.slots.free && k != i {}
    forall o, k: nat ensures Using(t, o, k) <==> Using(s, o, k) || (o == op && k == i) {}
    forall l, k: nat ensures Holding(t, l, k) == Holding(s, l, k) {}
    forall k | 0 <= k < t.size ensures Located(t, k) {
      assert Located(s, k);
      if k == i {
        assert Using(t, op, i);
      } else {
        assert k in s.slots.free ==> k in t.slots.free by {
          if k in s.slots.free {
            var j :| 0 <= j < |s.slots.free| && s.slots.free[j] == k;
            assert t.slots.free[j - 1] == k;
          }
        }
        hide OneOwner, Distinct;
        SameLocation(s, t, k);
      }
    }
  }

  /** A slot given up by its owner goes to the end of the deque, or is retired
      when the pool is closed; either way nobody else has it. */
  lemma ReturnKeeps(s: State, u: State, i: nat)
    requires Inv(s) && i < s.size && i !in s.slots.free && i !in s.lost
    requires u == s.(inUse := u.inUse, leases := u.leases)
    requires forall op, k: nat :: Using(u, op, k) <==> Using(s, op, k) && k != i
    requires forall l, k: nat :: Holding(u, l, k) <==> Holding(s, l, k) && k != i
    requires u.inUse.Keys <= s.inUse.Keys
    ensures Inv(Return(u, i))
  {
    var t := Return(u, i);
    forall op, k: nat ensures Using(t, op, k) == Using(u, op, k) {}
    forall l, k: nat ensures Holding(t, l, k) == Holding(u, l, k) {}
    forall k | k in t.slots.free ensures k in s.slots.free || k == i {}
    forall k | 0 <= k < t.size ensures Located(t, k) {
      if k == i {
        assert s.slots.closed || t.slots.free[|s.slots.free|] == i;
      } else {
        assert k in s.slots.free ==> k in t.slots.free;
        SameLocation(s, t, k);
      }
    }
  }

  lemma PutBackKeeps(s: State, op: Op)
    requires Inv(s) && op in s.inUse
    ensures Inv(Next(s, PutBack(op))) && Inv(Next(s, Drop(op)))
  {
    var i := s.inUse[op];
    var u := s.(inUse := s.inUse - {op});
    assert Using(s, op, i);
    forall o, k: nat ensures Using(u, o, k) <==> Using(s, o, k) && k != i {
      assert Using(s, o, k) && k == i ==> o == op;
    }
    forall l, k: nat ensures Holding(u, l, k) <==> Holding(s, l, k) && k != i {
      assert Holding(s, l, k) ==> k != i;
    }
    ReturnKeeps(s, u, i);
    var t := Next(s, Drop(op));
    forall o, k: nat ensures Using(t, o, k) == Using(u, o, k) {}
    forall l, k: nat ensures Holding(t, l, k) == Holding(u, l, k) {}
    forall k | 0 <= k < t.size ensures Located(t, k) {
      if k != i { SameLocation(s, t, k); }
    }
  }

  lemma ReleaseLeaseKeeps(s: State, l: LeaseId)
    requires Inv(s) && l in s.leases && s.leases[l].held
    ensures Inv(Next(s, ReleaseLease(l)))
  {
    var i := s.leases[l].slot;
    var u := s.(leases := s.leases[l := s.leases[l].(held := false)]);
    assert Holding(s, l, i);
    forall o, k: nat ensures Using(u, o, k) <==> Using(s, o, k) && k != i {
      assert Using(s, o, k) ==> k != i;
    }
    forall m, k: nat ensures Holding(u, m, k) <==> Holding(s, m, k) && k != i {
      assert Holding(s, m, k) && k == i ==> m == l;
    }
    ReturnKeeps(s, u, i);
  }

  lemma HandKeeps(s: State, op: Op, l: LeaseId)
    requires Inv(s) && op in s.inUse && l !in s.leases
    ensures Inv(Next(s, Hand(op, l)))
  {
    var i := s.inUse[op];
    var t := Next(s, Hand(op, l));
    assert Using(s, op, i) && Holding(t, l, i);
    forall o, k: nat ensures Using(t, o, k) <==> Using(s, o, k) && k != i {}
    forall m, k: nat ensures Holding(t, m, k) <==> Holding(s, m, k) || (m == l && k == i) {}
    forall k | 0 <= k < t.size ensures Located(t, k) {
      if k != i { SameLocation(s, t, k); }
    }
  }

  lemma MoveKeeps(s: State, from: LeaseId, to: LeaseId)
    requires Inv(s) && from in s.leases && from != to && !(to in s.leases && s.leases[to].held)
    ensures Inv(Next(s, Move(from, to)))
  {
    var t := Next(s, Move(from, to));
    forall o, k: nat ensures Using(t, o, k) == Using(s, o, k) {}
    forall m, k: nat
        ensures Holding(t, m, k) <==> if m == to then Holding(s, from, k) else m != from && Holding(s, m, k) {}
    forall k | 0 <= k < t.size ensures Located(t, k) {
      if Holding(s, from, k) { assert Holding(t, to, k); }
      SameLocation(s, t, k);
    }
  }

  lemma DestroyKeeps(s: State, l: LeaseId)
    requires Inv(s) && l in s.leases && !s.leases[l].held
    ensures Inv(Next(s, Destroy(l)))
  {
    var t := Next(s, Destroy(l));
    forall o, k: nat ensures Using(t, o, k) == Using(s, o, k) {}
    forall m, k: nat ensures Holding(t, m, k) == Holding(s, m, k) {}
    forall k | 0 <= k < t.size ensures Located(t, k) { SameLocation(s, t, k); }
  }

  lemma SignalKeeps(s: State)
    requires Inv(s)
    ensures Inv(Next(s, Signal))
  {
    SemaphoreKeeps(s, P.ReleaseStep(1));
    SameSlots(s, Next(s, Signal));
  }

  lemma CloseSemaphoreKeeps(s: State)
    requires Inv(s)
    ensures Inv(Next(s, CloseSemaphore))
  {
    SemaphoreKeeps(s, P.CloseStep);
    SameSlots(s, Next(s, CloseSemaphore));
  }

  lemma CloseKeeps(s: State)
    requires Inv(s)
    ensures Inv(Next(s, CloseSlots))
  {
    var t := Next(s, CloseSlots);
    forall o, k: nat ensures Using(t, o, k) == Using(s, o, k) {}
    forall m, k: nat ensures Holding(t, m, k) == Holding(s, m, k) {}
    forall k | 0 <= k < t.size ensures Located(t, k) { SameLocation(s, t, k); }
  }

  lemma NextInv(s: State, step: Step)
    requires Inv(s)
    ensures Inv(Next(s, step))
  {
    match step
    case Acquire(st) => AcquireKeeps(s, st);
    case Take(op) => if Unanswered(s, op, P.Grant) { TakeKeeps(s, op); }
    case GiveUp(op) => SameSlots(s, Next(s, step));
    case PutBack(op) => if op in s.inUse { PutBackKeeps(s, op); }
    case Drop(op) => if op in s.inUse { PutBackKeeps(s, op); }
    case Hand(op, l) => if op in s.inUse && l !in s.leases { HandKeeps(s, op, l); }
    case Move(from, to) =>
      if from in s.leases && from != to && !(to in s.leases && s.leases[to].held) { MoveKeeps(s, from, to); }
    case ReleaseLease(l) => if l in s.leases && s.leases[l].held { ReleaseLeaseKeeps(s, l); }
    case Destroy(l) => if l in s.leases && !s.leases[l].held { DestroyKeeps(s, l); }
    case Signal => SignalKeeps(s);
    case CloseSemaphore => CloseSemaphoreKeeps(s);
    case CloseSlots => CloseKeeps(s);
  }

  lemma CreateInv(size: nat)
    requires size > 0
    ensures Inv(Create(size).value)
  {
    var s := Create(size).value;
    P.InitInv(0);
    P.NextOrderAndAccounts(P.Init(0), P.ReleaseStep(size));
    P.NextDelivery(P.Init(0), P.ReleaseStep(size));
    forall i | 0 <= i < size ensures Located(s, i) { assert s.slots.free[i] == i; }
  }

  lemma {:induction false} RunInv(s: State, steps: seq<Step>)
    requires Inv(s)
    ensures Inv(Run(s, steps))
    decreases |steps|
  {
    if steps != [] {
      NextInv(s, steps[0]);
      RunInv(Next(s, steps[0]), steps[1..]);
    }
  }

  // ---------- the theorems ----------

  /** In every interleaving, the "internal state invalid" branch is never reached. */
  lemma InternalStateIsNeverInvalid(size: nat, steps: seq<Step>)
    requires size > 0
    ensures !Run(Create(size).value, steps).invalid
  {
    CreateInv(size);
    RunInv(Create(size).value, steps);
  }

  /** While the pool is open, in every interleaving, the free slots are exactly the
      idle permits, the grants no task has turned into a slot, and the signals in flight. */
  lemma SlotsMatchPermits(size: nat, steps: seq<Step>)
    requires size > 0
    ensures var s := Run(Create(size).value, steps);
            !s.slots.closed ==>
              |s.slots.free| == s.sem.sem.permits + (Grants(s.sem) - |s.takers|) + s.signalling
  {
    CreateInv(size);
    RunInv(Create(size).value, steps);
    var s := Run(Create(size).value, steps);
    if !s.slots.closed { FreeSlotsCover(s); }
  }

  /** In every interleaving, every slot is in exactly one place: free, in the hands
      of one task, held by one lease, or lost (dropped by a stopped task or retired
      by closing). */
  lemma SlotsHaveOneOwner(size: nat, steps: seq<Step>, i: nat)
    requires size > 0
    ensures var s := Run(Create(size).value, steps);
            && Distinct(s.slots.free) && (forall k :: k in s.slots.free ==> k < size)
            && (i < size ==> Located(s, i))
            && (i in s.slots.free ==> i !in s.lost)
            && (forall op :: Using(s, op, i) ==> i < size && i !in s.slots.free && i !in s.lost)
            && (forall l :: Holding(s, l, i) ==> i < size && i !in s.slots.free && i !in s.lost)
            && (forall op, op' :: Using(s, op, i) && Using(s, op', i) ==> op == op')
            && (forall l, l' :: Holding(s, l, i) && Holding(s, l', i) ==> l == l')
            && (forall op, l :: Using(s, op, i) ==> !Holding(s, l, i))
  {
    CreateInv(size);
    RunInv(Create(size).value, steps);
    SizeStays(Create(size).value, steps);
  }

  lemma {:induction false} SizeStays(s: State, steps: seq<Step>)
    ensures Run(s, steps).size == s.size
    decreases |steps|
  {
    if steps != [] { SizeStays(Next(s, steps[0]), steps[1..]); }
  }
}
