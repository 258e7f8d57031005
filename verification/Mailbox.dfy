/**
  The mailbox: a bounded queue under a lock, with a `closed` flag that `close`
  sets without taking the lock.  `Mailbox` is the object with its locked
  sections; the protocol splits those sections at every access to the flag, so
  that a close may land between any two of them.
 */
module MailboxModel {
  import opened Wrappers

  // ---------- the object ----------

  class Mailbox<T> {
    var queue: seq<T>
    var capacity: nat
    var closed: bool

    constructor (capacity: nat)
      ensures queue == [] && !closed && this.capacity == if capacity == 0 then 1 else capacity
    {
      queue, closed := [], false;
      this.capacity := if capacity == 0 then 1 else capacity;
    }

    method TrySend(value: T) returns (sent: bool)
      modifies this`queue
      ensures sent == (!closed && |old(queue)| < capacity)
      ensures queue == if sent then old(queue) + [value] else old(queue)
    {
      if closed {
        return false;
      }
      if |queue| >= capacity {
        return false;
      }
      queue := queue + [value];
      return true;
    }

    /** One round of `recv`: a message, the end of the stream, or nothing yet. */
    method Poll() returns (value: Option<T>, ended: bool)
      modifies this`queue
      ensures old(queue) != [] ==> value == Some(old(queue)[0]) && queue == old(queue)[1..] && !ended
      ensures old(queue) == [] ==> value == None && queue == [] && ended == closed
    {
      if queue != [] {
        value, ended := Some(queue[0]), false;
        queue := queue[1..];
        return;
      }
      value, ended := None, closed;
    }

    method Close()
      modifies this`closed
      ensures closed
    {
      closed := true;
    }
  }

  // ---------- the protocol ----------

  type Thread = nat

  datatype Pc<T> =
    | Idle
    | SendWaiting(value: T)
    | SendLocked(value: T)
    | SendChecked(value: T)
    | RecvLocked
    | RecvEmpty

  datatype State<T> = State(
    queue: seq<T>,
    capacity: nat,
    closed: bool,
    lock: Option<Thread>,
    pcs: map<Thread, Pc<T>>,
    // history
    accepted: seq<T>,
    received: seq<T>,
    ended: bool)

  /** `retry` tells a timed send, which tries again, from `try_send`, which gives up. */
  datatype Step<T> =
    | BeginSend(thread: Thread, value: T)
    | LockSend(thread: Thread)
    | CheckClosed(thread: Thread, retry: bool)
    | Store(thread: Thread, retry: bool)
    | LockRecv(thread: Thread)
    | Inspect(thread: Thread)
    | LoadClosed(thread: Thread)
    | CloseFlag

  function Init<T>(capacity: nat): State<T> {
    State([], if capacity == 0 then 1 else capacity, false, None, map[], [], [], false)
  }

  function At<T>(s: State<T>, t: Thread): Pc<T> {
    if t in s.pcs then s.pcs[t] else Idle
  }

  function Goto<T>(s: State<T>, t: Thread, pc: Pc<T>): State<T> {
    s.(pcs := s.pcs[t := pc])
  }

  function Leave<T>(s: State<T>, t: Thread, pc: Pc<T>): State<T> {
    s.(pcs := s.pcs[t := pc], lock := None)
  }

  /** A step that cannot be taken changes nothing. */
  function Next<T>(s: State<T>, step: Step<T>): State<T> {
    match step
    case CloseFlag => s.(closed := true)
    case BeginSend(t, v) => if At(s, t).Idle? && !s.closed then Goto(s, t, SendWaiting(v)) else s
    case LockSend(t) =>
      if At(s, t).SendWaiting? && s.lock == None then Goto(s, t, SendLocked(At(s, t).value)).(lock := Some(t)) else s
    case CheckClosed(t, retry) =>
      if !At(s, t).SendLocked? then s
      else if s.closed then Leave(s, t, if retry then SendWaiting(At(s, t).value) else Idle)
      else Goto(s, t, SendChecked(At(s, t).value))
    case Store(t, retry) =>
      if !At(s, t).SendChecked? then s
      else if |s.queue| >= s.capacity then Leave(s, t, if retry then SendWaiting(At(s, t).value) else Idle)
      else Leave(s, t, Idle).(queue := s.queue + [At(s, t).value], accepted := s.accepted + [At(s, t).value])
    case LockRecv(t) =>
      if At(s, t).Idle? && s.lock == None then Goto(s, t, RecvLocked).(lock := Some(t)) else s
    case Inspect(t) =>
      if !At(s, t).RecvLocked? then s
      else if s.queue == [] then Goto(s, t, RecvEmpty)
      else Leave(s, t, Idle).(queue := s.queue[1..], received := s.received + [s.queue[0]])
    case LoadClosed(t) =>
      if !At(s, t).RecvEmpty? then s else Leave(s, t, Idle).(ended := s.ended || s.closed)
  }

  function Run<T>(s: State<T>, steps: seq<Step<T>>): State<T>
    decreases |steps|
  {
    if steps == [] then s else Run(Next(s, steps[0]), steps[1..])
  }

  predicate Locked<T>(pc: Pc<T>) {
    pc.SendLocked? || pc.SendChecked? || pc.RecvLocked? || pc.RecvEmpty?
  }

  ghost predicate Inv<T>(s: State<T>) {
    && s.received + s.queue == s.accepted
    && |s.queue| <= s.capacity
    && (forall t: Thread :: Locked(At(s, t)) ==> s.lock == Some(t))
    && (forall t: Thread :: At(s, t).RecvEmpty? ==> s.queue == [])
    && (s.ended ==> s.closed && s.queue == [] && forall t: Thread :: !At(s, t).SendChecked?)
  }

  lemma NextInv<T>(s: State<T>, step: Step<T>)
    requires Inv(s)
    ensures Inv(Next(s, step))
  {
    var n := Next(s, step);
    forall t: Thread | step.CloseFlag? || t != step.thread ensures At(n, t) == At(s, t) {}
    if step.Store? && At(s, step.thread).SendChecked? {
      assert s.received + (s.queue + [At(s, step.thread).value]) == s.accepted + [At(s, step.thread).value];
    }
  }

  lemma {:induction false} RunInv<T>(s: State<T>, steps: seq<Step<T>>)
    requires Inv(s)
    ensures Inv(Run(s, steps)) && (s.ended ==> Run(s, steps).ended && Run(s, steps).accepted == s.accepted)
    ensures Run(s, steps).capacity == s.capacity
    decreases |steps|
  {
    if steps != [] {
      NextInv(s, steps[0]);
      RunInv(Next(s, steps[0]), steps[1..]);
    }
  }

  /** In every interleaving, messages come out in the order they went in, and the
      queue never outgrows its capacity. */
  lemma MessagesKeepTheirOrder<T>(capacity: nat, steps: seq<Step<T>>)
    ensures var s := Run(Init<T>(capacity), steps);
            && s.received + s.queue == s.accepted && s.received <= s.accepted
            && |s.queue| <= if capacity == 0 then 1 else capacity
  {
    RunInv(Init<T>(capacity), steps);
  }

  /** Once any receiver saw the end of the stream, everything ever accepted has
      been received, and no continuation accepts or delivers anything more. */
  lemma EndOfStreamIsFinal<T>(capacity: nat, before: seq<Step<T>>, after: seq<Step<T>>)
    requires Run(Init<T>(capacity), before).ended
    ensures var s := Run(Init<T>(capacity), before);
            s.received == s.accepted && Run(s, after).accepted == s.accepted && Run(s, after).received == s.received
  {
    RunInv(Init<T>(capacity), before);
    var s := Run(Init<T>(capacity), before);
    RunInv(s, after);
    assert s.received + [] == s.received;
    assert Run(s, after).received + [] == Run(s, after).received;
  }

  // ---------- the object follows the protocol ----------

  ghost predicate StandsFor<T>(m: Mailbox<T>, s: State<T>)
    reads m
  {
    m.queue == s.queue && m.capacity == s.capacity && m.closed == s.closed
  }

  /** An undisturbed `try_send` is four steps of its thread. */
  method SendIsFourSteps<T>(m: Mailbox<T>, value: T, ghost s: State<T>, ghost t: Thread) returns (sent: bool)
    requires StandsFor(m, s) && s.lock == None && At(s, t).Idle?
    modifies m
    ensures var steps := [BeginSend(t, value), LockSend(t), CheckClosed(t, false), Store(t, false)];
            var s' := Run(s, steps);
            && StandsFor(m, s') && s'.lock == None && At(s', t).Idle?
            && s'.accepted == if sent then s.accepted + [value] else s.accepted
  {
    FourSteps(s, BeginSend(t, value), LockSend(t), CheckClosed(t, false), Store(t, false));
    sent := m.TrySend(value);
  }

  /** An undisturbed round of `recv` is three steps of its thread. */
  method PollIsThreeSteps<T>(m: Mailbox<T>, ghost s: State<T>, ghost t: Thread) returns (value: Option<T>, ended: bool)
    requires StandsFor(m, s) && s.lock == None && At(s, t).Idle?
    modifies m
    ensures var s' := Run(s, [LockRecv(t), Inspect(t), LoadClosed(t)]);
            && StandsFor(m, s') && s'.lock == None && At(s', t).Idle?
            && s'.received == (if value.Some? then s.received + [value.value] else s.received)
            && s'.ended == (s.ended || ended)
  {
    ThreeSteps(s, LockRecv(t), Inspect(t), LoadClosed(t));
    value, ended := m.Poll();
  }

  method CloseIsAStep<T>(m: Mailbox<T>, ghost s: State<T>)
    requires StandsFor(m, s)
    modifies m
    ensures StandsFor(m, Next(s, CloseFlag))
  {
    m.Close();
  }

  lemma ThreeSteps<T>(s: State<T>, a: Step<T>, b: Step<T>, c: Step<T>)
    ensures Run(s, [a, b, c]) == Next(Next(Next(s, a), b), c)
  {
    assert [a, b, c][1..] == [b, c] && [b, c][1..] == [c] && [c][1..] == [];
    hide Next;
    assert Run(Next(s, a), [b, c]) == Run(Next(Next(s, a), b), [c]);
  }

  lemma FourSteps<T>(s: State<T>, a: Step<T>, b: Step<T>, c: Step<T>, d: Step<T>)
    ensures Run(s, [a, b, c, d]) == Next(Next(Next(Next(s, a), b), c), d)
  {
    assert [a, b, c, d][1..] == [b, c, d];
    ThreeSteps(Next(s, a), b, c, d);
    hide Next;
  }

  /** A timed send keeps its message while the mailbox is full, and has it accepted in
      the first undisturbed round in which there is room; once the mailbox is closed no
      round accepts it. */
  lemma TimedSendsKeepTrying<T>(s: State<T>, t: Thread)
    requires s.lock == None && At(s, t).SendWaiting?
    ensures var s' := Run(s, [LockSend(t), CheckClosed(t, true), Store(t, true)]);
            var v := At(s, t).value;
            && s'.lock == None
            && (if !s.closed && |s.queue| < s.capacity
                then s'.accepted == s.accepted + [v] && s'.queue == s.queue + [v] && At(s', t).Idle?
                else s'.accepted == s.accepted && s'.queue == s.queue && At(s', t) == SendWaiting(v))
  {
    ThreeSteps(s, LockSend(t), CheckClosed(t, true), Store(t, true));
  }
}
