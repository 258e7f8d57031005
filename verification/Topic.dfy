/**
  One topic of the message bus: publishers feed a bounded ingress channel, a
  dispatcher takes one message at a time and pushes it to a snapshot of the
  subscribers, waiting wherever an egress channel is full.  Channels are bounded
  FIFO queues with a close.  The pieces of closing (flags, channels, the
  subscriber table) may happen at any time and in any order.
 */
module Topic {
  import opened Wrappers

  type Id = nat

  datatype Sub<T> = Sub(
    closed: bool,
    open: bool,
    alive: bool,
    buffer: seq<T>,
    // history
    pushed: seq<T>,
    taken: seq<T>,
    /** How many messages the topic had received when this subscriber was added. */
    joined: nat,
    since: Option<nat>)

  /** Where a dispatch loop stands. */
  datatype Loop<T> =
    | Receiving
    | Collecting(payload: T)
    | Fan(payload: T, targets: seq<Id>, index: nat, sending: bool)

  datatype State<T> = State(
    ingress: seq<T>,
    ingressOpen: bool,
    ingressCapacity: nat,
    capacity: nat,
    registered: set<Id>,
    subs: map<Id, Sub<T>>,
    nextId: Id,
    started: bool,
    /** Threads that won `mark_dispatcher_started` and have yet to start the loop. */
    starters: nat,
    loops: seq<Loop<T>>,
    // history
    accepted: seq<T>,
    received: seq<T>)

  datatype Step<T> =
    | Publish(value: T)
    | MarkStarted
    | StartLoop
    | Receive(loop: nat)
    | EndLoop(loop: nat)
    | Collect(loop: nat, targets: seq<Id>)
    | Skip(loop: nat)
    | BeginSend(loop: nat)
    | Push(loop: nat)
    | FailSend(loop: nat)
    | NextRound(loop: nat)
    | Subscribe
    | Consume(id: Id)
    | SetClosed(id: Id)
    | CloseEgress(id: Id)
    | Unregister(id: Id)
    | Expire(id: Id)
    | CloseIngress

  function AtLeastOne(n: nat): nat { if n == 0 then 1 else n }

  function Init<T>(topicCapacity: nat, subscriptionCapacity: nat): State<T> {
    State([], true, AtLeastOne(topicCapacity), AtLeastOne(subscriptionCapacity), {}, map[], 1, false, 0, [], [], [])
  }

  /** The table entries whose subscriber still exists, in some order. */
  ghost predicate Snapshot<T>(s: State<T>, targets: seq<Id>) {
    && (forall i, j :: 0 <= i < j < |targets| ==> targets[i] != targets[j])
    && (forall id :: id in targets <==> id in s.registered && id in s.subs && s.subs[id].alive)
  }

  predicate Refuses<T>(sub: Sub<T>) { sub.closed || !sub.open }

  function Enrol<T>(sub: Sub<T>, at: nat): Sub<T> {
    if sub.since.None? then sub.(since := Some(at)) else sub
  }

  predicate At<T>(s: State<T>, k: nat, sending: bool) {
    && k < |s.loops| && s.loops[k].Fan? && s.loops[k].index < |s.loops[k].targets|
    && s.loops[k].sending == sending && s.loops[k].targets[s.loops[k].index] in s.subs
  }

  function Target<T>(s: State<T>, k: nat, sending: bool): (id: Id)
    requires At(s, k, sending)
    ensures id in s.subs
  {
    s.loops[k].targets[s.loops[k].index]
  }

  function Advance<T>(s: State<T>, k: nat): State<T>
    requires k < |s.loops| && s.loops[k].Fan?
  {
    s.(loops := s.loops[k := s.loops[k].(index := s.loops[k].index + 1, sending := false)])
  }

  /** The subscriber turned out to be closed: flag it, forget it, go on. */
  function GiveUp<T>(s: State<T>, k: nat, sending: bool): State<T>
    requires At(s, k, sending)
  {
    var id := Target(s, k, sending);
    Advance(s, k).(subs := s.subs[id := s.subs[id].(closed := true)], registered := s.registered - {id})
  }

  function Given<T>(sub: Sub<T>, payload: T): Sub<T> {
    sub.(buffer := sub.buffer + [payload], pushed := sub.pushed + [payload])
  }

  function LastIndex<T>(q: seq<T>): nat { if q == [] then 0 else |q| - 1 }

  /** A step that cannot be taken changes nothing. */
  ghost function Next<T(!new)>(s: State<T>, step: Step<T>): State<T> {
    match step
    case Publish(v) =>
      if !s.ingressOpen || |s.ingress| >= s.ingressCapacity then s
      else s.(ingress := s.ingress + [v], accepted := s.accepted + [v])
    case MarkStarted =>
      if s.started then s else s.(started := true, starters := s.starters + 1)
    case StartLoop =>
      if s.starters == 0 then s else s.(starters := s.starters - 1, loops := s.loops + [Receiving])
    case Receive(k) =>
      if k >= |s.loops| || !s.loops[k].Receiving? || s.ingress == [] then s
      else s.(loops := s.loops[k := Collecting(s.ingress[0])], ingress := s.ingress[1..],
          received := s.received + [s.ingress[0]])
    case EndLoop(k) =>
      if k >= |s.loops| || !s.loops[k].Receiving? || s.ingressOpen then s
      else s.(loops := s.loops[..k] + s.loops[k + 1..])
    case Collect(k, targets) =>
      if k >= |s.loops| || !s.loops[k].Collecting? || !Snapshot(s, targets) then s
      else s.(loops := s.loops[k := Fan(s.loops[k].payload, targets, 0, false)],
              registered := (set id | id in s.registered && id in targets),
              subs := map id | id in s.subs ::
                if id in targets then Enrol(s.subs[id], LastIndex(s.received)) else s.subs[id])
    case Skip(k) =>
      if At(s, k, false) && Refuses(s.subs[Target(s, k, false)]) then GiveUp(s, k, false) else s
    case BeginSend(k) =>
      if At(s, k, false) && !Refuses(s.subs[Target(s, k, false)])
      then s.(loops := s.loops[k := s.loops[k].(sending := true)])
      else s
    case Push(k) =>
      if !At(s, k, true) then s
      else
        var id := Target(s, k, true);
        var sub := s.subs[id];
        if !sub.open || |sub.buffer| >= s.capacity then s
        else Advance(s, k).(subs := s.subs[id := Given(sub, s.loops[k].payload)])
    case FailSend(k) =>
      if At(s, k, true) && !s.subs[Target(s, k, true)].open then GiveUp(s, k, true) else s
    case NextRound(k) =>
      if k < |s.loops| && s.loops[k].Fan? && s.loops[k].index >= |s.loops[k].targets|
      then s.(loops := s.loops[k := Receiving]) else s
    case Subscribe =>
      s.(subs := s.subs[s.nextId := Sub(false, true, true, [], [], [], |s.received|, None)],
         registered := s.registered + {s.nextId}, nextId := s.nextId + 1)
    case Consume(id) =>
      if id !in s.subs || s.subs[id].buffer == [] then s
      else var sub := s.subs[id];
           s.(subs := s.subs[id := sub.(buffer := sub.buffer[1..], taken := sub.taken + [sub.buffer[0]])])
    case SetClosed(id) => if id !in s.subs then s else s.(subs := s.subs[id := s.subs[id].(closed := true)])
    case CloseEgress(id) => if id !in s.subs then s else s.(subs := s.subs[id := s.subs[id].(open := false)])
    case Unregister(id) => s.(registered := s.registered - {id})
    case Expire(id) =>
      if id !in s.subs || (exists k :: 0 <= k < |s.loops| && Awaits(s.loops[k], id)) then s
      else s.(subs := s.subs[id := s.subs[id].(alive := false)])
    case CloseIngress => s.(ingressOpen := false)
  }

  /** The fan-out still holds a reference to the subscriber. */
  predicate Awaits<T>(loop: Loop<T>, id: Id) {
    loop.Fan? && id in loop.targets[Min(loop.index, |loop.targets|)..]
  }

  function Min(a: nat, b: nat): nat { if a < b then a else b }

  ghost function Run<T(!new)>(s: State<T>, steps: seq<Step<T>>): State<T>
    decreases |steps|
  {
    if steps == [] then s else Run(Next(s, steps[0]), steps[1..])
  }

  // ---------- the invariant ----------

  /** How far the subscriber has got in the topic's order. */
  function Reached<T>(sub: Sub<T>): nat
    requires sub.since.Some?
  {
    sub.since.value + |sub.pushed|
  }

  /** What a subscriber was given is a contiguous run of what the topic received. */
  ghost predicate GoodSub<T>(sub: Sub<T>, received: seq<T>, capacity: nat) {
    && sub.taken + sub.buffer == sub.pushed
    && |sub.buffer| <= capacity
    && sub.joined <= |received|
    && (sub.since.None? ==> sub.pushed == [])
    && (sub.since.Some? ==> sub.joined - 1 <= sub.since.value <= sub.joined)
    && (sub.since.Some? ==> Reached(sub) <= |received| && sub.pushed == received[sub.since.value..Reached(sub)])
  }

  ghost predicate UpTo<T>(sub: Sub<T>, n: int) {
    sub.since.Some? ==> Reached(sub) == n
  }

  /** Whoever is waiting to be served was added no earlier than the `n`-th message. */
  ghost predicate Joined<T>(sub: Sub<T>, n: int) {
    sub.since.None? ==> sub.joined >= n
  }

  /** Nobody who can still be served has missed anything. */
  ghost predicate InStep<T>(s: State<T>, loop: Loop<T>) {
    var n := |s.received|;
    match loop
    case Receiving =>
      && (forall id :: id in s.registered && id in s.subs ==> Joined(s.subs[id], n))
      && (forall id :: id in s.registered && id in s.subs && !Refuses(s.subs[id]) ==> UpTo(s.subs[id], n))
    case Collecting(p) =>
      && n > 0 && p == s.received[n - 1]
      && (forall id :: id in s.registered && id in s.subs ==> Joined(s.subs[id], n - 1))
      && (forall id :: id in s.registered && id in s.subs && !Refuses(s.subs[id]) ==> UpTo(s.subs[id], n - 1))
    case Fan(p, targets, index, sending) =>
      && n > 0 && p == s.received[n - 1] && index <= |targets|
      && (forall i, j :: 0 <= i < j < |targets| ==> targets[i] != targets[j])
      && (forall i :: 0 <= i < |targets| ==> targets[i] in s.subs && s.subs[targets[i]].since.Some?)
      && (forall i :: 0 <= i < index && targets[i] in s.registered && !Refuses(s.subs[targets[i]]) ==>
          Reached(s.subs[targets[i]]) == n)
      && (forall i :: index <= i < |targets| && !Refuses(s.subs[targets[i]]) ==> Reached(s.subs[targets[i]]) == n - 1)
      && (sending ==> index < |targets| && (s.subs[targets[index]].open ==> Reached(s.subs[targets[index]]) == n - 1))
      && (forall id :: id in s.registered && id in s.subs && id !in targets ==>
          s.subs[id].since.None? && s.subs[id].joined == n)
  }

  ghost predicate Inv<T>(s: State<T>) {
    && s.starters + |s.loops| <= 1
    && (!s.started ==> s.starters == 0 && s.loops == [])
    && s.received + s.ingress == s.accepted
    && |s.ingress| <= s.ingressCapacity
    && (forall id :: id in s.registered ==> id in s.subs)
    && (forall id :: id in s.subs ==> id < s.nextId && GoodSub(s.subs[id], s.received, s.capacity))
    && (forall id :: id in s.subs && s.received == [] ==> s.subs[id].since.None?)
    && (s.loops == [] && s.starters > 0 ==> s.received == [])
    && (!s.started ==> s.received == [])
    && (forall k :: 0 <= k < |s.loops| ==> InStep(s, s.loops[k]))
  }

  lemma InitInv<T(!new)>(topicCapacity: nat, subscriptionCapacity: nat)
    ensures Inv(Init<T>(topicCapacity, subscriptionCapacity))
  {}

  // ---------- dispatcher steps ----------

  lemma ReceiveKeeps<T(!new)>(s: State<T>, k: nat)
    requires Inv(s)
    ensures Inv(Next(s, Receive(k)))
  {
    var t := Next(s, Receive(k));
    if t != s {
      assert k == 0 && t.received[..|s.received|] == s.received;
      forall id | id in t.subs ensures GoodSub(t.subs[id], t.received, t.capacity) {
        assert GoodSub(s.subs[id], s.received, s.capacity);
        if s.subs[id].since.Some? {
          assert t.received[s.subs[id].since.value..Reached(s.subs[id])] ==
              s.received[s.subs[id].since.value..Reached(s.subs[id])];
        }
      }
      assert InStep(s, s.loops[0]);
      assert InStep(t, t.loops[0]);
    }
  }

  lemma CollectKeeps<T(!new)>(s: State<T>, k: nat, targets: seq<Id>)
    requires Inv(s)
    ensures Inv(Next(s, Collect(k, targets)))
  {
    var t := Next(s, Collect(k, targets));
    if t != s {
      assert k == 0 && InStep(s, s.loops[0]);
      var n := |s.received|;
      forall id | id in t.subs ensures GoodSub(t.subs[id], t.received, t.capacity) {
        assert GoodSub(s.subs[id], s.received, s.capacity);
      }
      forall i | 0 <= i < |targets| && !Refuses(t.subs[targets[i]]) ensures Reached(t.subs[targets[i]]) == n - 1 {
        assert targets[i] in s.registered;
        assert UpTo(s.subs[targets[i]], n - 1) && GoodSub(s.subs[targets[i]], s.received, s.capacity);
      }
      assert InStep(t, t.loops[0]);
    }
  }

  lemma GiveUpKeeps<T(!new)>(s: State<T>, k: nat, sending: bool)
    requires Inv(s) && At(s, k, sending)
    ensures Inv(GiveUp(s, k, sending))
  {
    var t := GiveUp(s, k, sending);
    assert k == 0 && InStep(s, s.loops[0]);
    forall id | id in t.subs ensures GoodSub(t.subs[id], t.received, t.capacity) {
      assert GoodSub(s.subs[id], s.received, s.capacity);
    }
    GiveUpInStep(s, t, sending);
  }

  lemma GiveUpInStep<T(!new)>(s: State<T>, t: State<T>, sending: bool)
    requires At(s, 0, sending) && InStep(s, s.loops[0]) && t == GiveUp(s, 0, sending)
    ensures InStep(t, t.loops[0])
  {}

  ghost predicate Pushes<T>(s: State<T>, t: State<T>, k: nat) {
    && At(s, k, true)
    && var id := Target(s, k, true);
       s.subs[id].open && |s.subs[id].buffer| < s.capacity &&
           t == Advance(s, k).(subs := s.subs[id := Given(s.subs[id], s.loops[k].payload)])
  }

  lemma PushEffect<T(!new)>(s: State<T>, k: nat)
    ensures Next(s, Push(k)) == s || Pushes(s, Next(s, Push(k)), k)
  {}

  lemma PushKeeps<T(!new)>(s: State<T>, k: nat)
    requires Inv(s)
    ensures Inv(Next(s, Push(k)))
  {
    PushEffect(s, k);
    var t := Next(s, Push(k));
    hide Next;
    if t != s {
      assert k == 0;
      PushFacts(s, t);
      OneChanged(s, t, Target(s, 0, true));
    }
  }

  lemma PushFacts<T(!new)>(s: State<T>, t: State<T>)
    requires Pushes(s, t, 0) && InStep(s, s.loops[0])
    requires GoodSub(s.subs[Target(s, 0, true)], s.received, s.capacity)
    ensures GoodSub(t.subs[Target(s, 0, true)], t.received, t.capacity) && InStep(t, t.loops[0])
  {
    var id := Target(s, 0, true);
    GoodPush(s.subs[id], s.received, s.capacity);
    PushInStep(s, t, id);
  }

  /** A step of the only loop that touches one subscriber. */
  lemma OneChanged<T(!new)>(s: State<T>, t: State<T>, id: Id)
    requires Inv(s) && t == s.(loops := t.loops, subs := t.subs)
    requires |s.loops| == 1 && |t.loops| == 1 && InStep(t, t.loops[0])
    requires id in s.subs && id in t.subs && t.subs == s.subs[id := t.subs[id]] && t.subs[id].since == s.subs[id].since
    requires GoodSub(t.subs[id], t.received, t.capacity)
    ensures Inv(t)
  {
    hide InStep, GoodSub;
  }

  lemma GoodPush<T>(sub: Sub<T>, received: seq<T>, capacity: nat)
    requires GoodSub(sub, received, capacity) && |sub.buffer| < capacity
    requires sub.since.Some? && Reached(sub) == |received| - 1
    ensures var p := received[|received| - 1];
            GoodSub(Given(sub, p), received, capacity)
  {
    var n := |received|;
    var p := received[n - 1];
    assert received[sub.since.value..n - 1] + [p] == received[sub.since.value..n];
    assert sub.taken + (sub.buffer + [p]) == sub.pushed + [p];
  }

  lemma PushInStep<T(!new)>(s: State<T>, t: State<T>, id: Id)
    requires At(s, 0, true) && id == Target(s, 0, true) && InStep(s, s.loops[0])
    requires t.loops == Advance(s, 0).loops && t.received == s.received && t.registered == s.registered
    requires t.subs.Keys == s.subs.Keys && forall o :: o in s.subs && o != id ==> t.subs[o] == s.subs[o]
    requires t.subs[id].since == s.subs[id].since && t.subs[id].since.Some? && Reached(t.subs[id]) == |t.received|
    ensures InStep(t, t.loops[0])
  {
    var targets, index := s.loops[0].targets, s.loops[0].index;
    forall i | 0 <= i < |targets| && i != index ensures targets[i] != id {}
  }

  lemma NextRoundKeeps<T(!new)>(s: State<T>, k: nat)
    requires Inv(s)
    ensures Inv(Next(s, NextRound(k)))
  {
    var t := Next(s, NextRound(k));
    if t != s {
      assert k == 0 && InStep(s, s.loops[0]);
      forall id | id in t.registered && !Refuses(t.subs[id]) ensures UpTo(t.subs[id], |t.received|) {
        if id in s.loops[0].targets {
          var i :| 0 <= i < |s.loops[0].targets| && s.loops[0].targets[i] == id;
        }
      }
      assert InStep(t, t.loops[0]);
    }
  }

  lemma BeginSendKeeps<T(!new)>(s: State<T>, k: nat)
    requires Inv(s)
    ensures Inv(Next(s, BeginSend(k)))
  {
    var t := Next(s, BeginSend(k));
    if t != s {
      assert k == 0 && InStep(s, s.loops[0]);
      assert InStep(t, t.loops[0]);
    }
  }

  // ---------- everything else ----------

  /** A subscriber that only became less willing, or whose consumer took something. */
  ghost predicate Duller<T>(sub: Sub<T>, sub': Sub<T>) {
    && sub'.pushed == sub.pushed && sub'.since == sub.since && sub'.joined == sub.joined
    && sub'.taken + sub'.buffer == sub.taken + sub.buffer && |sub'.buffer| <= |sub.buffer|
    && (sub.closed ==> sub'.closed) && (sub'.open ==> sub.open)
  }

  lemma DullerKeeps<T(!new)>(s: State<T>, t: State<T>)
    requires Inv(s) && t == s.(subs := t.subs, registered := t.registered)
    requires t.subs.Keys == s.subs.Keys && t.registered <= s.registered
    requires forall id :: id in s.subs ==> Duller(s.subs[id], t.subs[id])
    ensures Inv(t)
  {
    forall id | id in t.subs ensures id < t.nextId && GoodSub(t.subs[id], t.received, t.capacity) {
      assert Duller(s.subs[id], t.subs[id]) && GoodSub(s.subs[id], s.received, s.capacity);
    }
    forall k | 0 <= k < |t.loops| ensures InStep(t, t.loops[k]) {
      assert InStep(s, s.loops[k]);
      DullerInStep(s, t, s.loops[k]);
    }
  }

  lemma DullerInStep<T(!new)>(s: State<T>, t: State<T>, loop: Loop<T>)
    requires InStep(s, loop) && t == s.(subs := t.subs, registered := t.registered)
    requires t.subs.Keys == s.subs.Keys && t.registered <= s.registered
    requires forall id :: id in s.subs ==> Duller(s.subs[id], t.subs[id])
    ensures InStep(t, loop)
  {
    forall id | id in t.subs
      ensures t.subs[id].since == s.subs[id].since && t.subs[id].joined == s.subs[id].joined
      ensures t.subs[id].since.Some? ==> Reached(t.subs[id]) == Reached(s.subs[id])
      ensures !Refuses(t.subs[id]) ==> !Refuses(s.subs[id])
      ensures t.subs[id].open ==> s.subs[id].open
    {
      assert Duller(s.subs[id], t.subs[id]);
    }
    hide Duller, Reached, Refuses;
  }

  lemma SubscribeKeeps<T(!new)>(s: State<T>)
    requires Inv(s)
    ensures Inv(Next(s, Subscribe))
  {
    var t := Next(s, Subscribe);
    forall id | id in t.subs ensures id < t.nextId && GoodSub(t.subs[id], t.received, t.capacity) {
      if id != s.nextId { assert GoodSub(s.subs[id], s.received, s.capacity); }
    }
    forall k | 0 <= k < |t.loops| ensures InStep(t, t.loops[k]) {
      SubscribeInStep(s, s.loops[k]);
    }
    hide InStep, GoodSub;
  }

  lemma SubscribeInStep<T(!new)>(s: State<T>, loop: Loop<T>)
    requires InStep(s, loop) && s.nextId !in s.subs
    ensures InStep(Next(s, Subscribe), loop)
  {
    var t := Next(s, Subscribe);
    assert t == s.(subs := t.subs, registered := t.registered, nextId := t.nextId);
    forall id | id in t.subs && id != s.nextId ensures id in s.subs && t.subs[id] == s.subs[id] {}
    assert t.subs[s.nextId].since.None? && t.subs[s.nextId].joined == |s.received|;
    hide Next, Reached, Refuses;
  }

  lemma NextInv<T(!new)>(s: State<T>, step: Step<T>)
    requires Inv(s)
    ensures Inv(Next(s, step))
  {
    var t := Next(s, step);
    match step
    case Receive(k) => ReceiveKeeps(s, k);
    case Collect(k, targets) => CollectKeeps(s, k, targets);
    case Skip(k) => if t != s { GiveUpKeeps(s, k, false); }
    case FailSend(k) => if t != s { GiveUpKeeps(s, k, true); }
    case Push(k) => PushKeeps(s, k);
    case NextRound(k) => NextRoundKeeps(s, k);
    case BeginSend(k) => BeginSendKeeps(s, k);
    case Subscribe => SubscribeKeeps(s);
    case Consume(id) => SubscriberKeeps(s, step);
    case SetClosed(id) => SubscriberKeeps(s, step);
    case CloseEgress(id) => SubscriberKeeps(s, step);
    case Unregister(id) => SubscriberKeeps(s, step);
    case Expire(id) => SubscriberKeeps(s, step);
    case _ => LifecycleKeeps(s, step);
  }

  lemma SubscriberKeeps<T(!new)>(s: State<T>, step: Step<T>)
    requires Inv(s) && (step.Consume? || step.SetClosed? || step.CloseEgress? || step.Unregister? || step.Expire?)
    ensures Inv(Next(s, step))
  {
    SubscriberDuller(s, step);
    DullerKeeps(s, Next(s, step));
  }

  lemma SubscriberDuller<T(!new)>(s: State<T>, step: Step<T>)
    requires step.Consume? || step.SetClosed? || step.CloseEgress? || step.Unregister? || step.Expire?
    ensures var t := Next(s, step);
            && t == s.(subs := t.subs, registered := t.registered)
            && t.subs.Keys == s.subs.Keys && t.registered <= s.registered
            && (forall id :: id in s.subs ==> Duller(s.subs[id], t.subs[id]))
  {
    if step.Consume? && step.id in s.subs && s.subs[step.id].buffer != [] {
      var sub := s.subs[step.id];
      assert sub.taken + [sub.buffer[0]] + sub.buffer[1..] == sub.taken + sub.buffer;
    }
  }

  lemma LifecycleKeeps<T(!new)>(s: State<T>, step: Step<T>)
    requires Inv(s) && (step.Publish? || step.MarkStarted? || step.StartLoop? || step.EndLoop? || step.CloseIngress?)
    ensures Inv(Next(s, step))
  {
    var t := Next(s, step);
    assert t.received == s.received && t.subs == s.subs && t.registered == s.registered && t.capacity == s.capacity;
    if step.Publish? {
      assert s.received + (s.ingress + [step.value]) == s.accepted + [step.value];
    }
    forall k | 0 <= k < |t.loops| ensures InStep(t, t.loops[k]) {
      if k < |s.loops| {
        SameInStep(s, t, t.loops[k]);
      } else {
        FirstRound(t);
      }
    }
    hide InStep, GoodSub;
  }

  lemma SameInStep<T>(s: State<T>, t: State<T>, loop: Loop<T>)
    requires InStep(s, loop) && t.received == s.received && t.subs == s.subs && t.registered == s.registered
    ensures InStep(t, loop)
  {}

  lemma FirstRound<T>(s: State<T>)
    requires s.received == [] && forall id :: id in s.subs ==> s.subs[id].since.None?
    ensures InStep(s, Receiving)
  {}

  lemma {:induction false} RunInv<T(!new)>(s: State<T>, steps: seq<Step<T>>)
    requires Inv(s)
    ensures Inv(Run(s, steps))
    decreases |steps|
  {
    if steps != [] {
      NextInv(s, steps[0]);
      RunInv(Next(s, steps[0]), steps[1..]);
    }
  }

  // ---------- the theorems ----------

  /** In every interleaving, what was pushed to a subscriber is one contiguous run
      of the order in which the topic accepted messages, and what the subscriber
      has read is a prefix of that. */
  lemma SubscribersSeeContiguousRuns<T(!new)>(tc: nat, sc: nat, steps: seq<Step<T>>, id: Id)
    requires id in Run(Init<T>(tc, sc), steps).subs
    ensures var s := Run(Init<T>(tc, sc), steps);
            var sub := s.subs[id];
            && (exists a, b :: 0 <= a <= b <= |s.accepted| && sub.pushed == s.accepted[a..b])
            && sub.taken <= sub.pushed
            && |sub.buffer| <= AtLeastOne(sc)
  {
    InitInv<T>(tc, sc);
    RunInv(Init<T>(tc, sc), steps);
    CapacityStays(Init<T>(tc, sc), steps);
    var s := Run(Init<T>(tc, sc), steps);
    var sub := s.subs[id];
    assert GoodSub(sub, s.received, s.capacity);
    if sub.since.Some? {
      var a, b := sub.since.value, Reached(sub);
      assert s.accepted[a..b] == s.received[a..b];
    } else {
      assert sub.pushed == s.accepted[0..0];
    }
  }

  lemma {:induction false} CapacityStays<T(!new)>(s: State<T>, steps: seq<Step<T>>)
    ensures Run(s, steps).capacity == s.capacity
    decreases |steps|
  {
    if steps != [] { CapacityStays(Next(s, steps[0]), steps[1..]); }
  }

  /** Whenever the dispatcher waits for the next message, every subscriber that is
      still open has everything the topic received since it was added, in order, and
      possibly one message more, received just before. */
  lemma OpenSubscribersMissNothing<T(!new)>(tc: nat, sc: nat, steps: seq<Step<T>>, id: Id)
    requires var s := Run(Init<T>(tc, sc), steps);
             id in s.registered && id in s.subs && !Refuses(s.subs[id]) && s.loops == [Receiving]
    ensures var s := Run(Init<T>(tc, sc), steps);
            var sub := s.subs[id];
            exists a :: 0 <= a && sub.joined - 1 <= a <= sub.joined <= |s.received| && sub.pushed == s.received[a..]
  {
    InitInv<T>(tc, sc);
    RunInv(Init<T>(tc, sc), steps);
    var s := Run(Init<T>(tc, sc), steps);
    var sub := s.subs[id];
    assert InStep(s, s.loops[0]) && GoodSub(sub, s.received, s.capacity);
    assert sub.pushed == s.received[if sub.since.Some? then sub.since.value else sub.joined..];
  }

  /** At most one dispatch loop exists, whatever races to start it; and the topic
      hands on messages in the order it accepted them. */
  lemma OneDispatcherInOrder<T(!new)>(tc: nat, sc: nat, steps: seq<Step<T>>)
    ensures var s := Run(Init<T>(tc, sc), steps);
            |s.loops| <= 1 && s.received <= s.accepted && s.received + s.ingress == s.accepted
  {
    InitInv<T>(tc, sc);
    RunInv(Init<T>(tc, sc), steps);
  }

  lemma SilentStep<T(!new)>(s: State<T>, step: Step<T>, id: Id)
    requires id in s.subs && !s.subs[id].open && id < s.nextId
    ensures var t := Next(s, step);
            id in t.subs && !t.subs[id].open && t.subs[id].pushed == s.subs[id].pushed && id < t.nextId
  {}

  /** A closed egress channel is closed for good: nothing is pushed to it again. */
  lemma {:induction false} ClosedSubscribersStaySilent<T(!new)>(s: State<T>, steps: seq<Step<T>>, id: Id)
    requires id in s.subs && !s.subs[id].open && id < s.nextId
    ensures id in Run(s, steps).subs && !Run(s, steps).subs[id].open &&
        Run(s, steps).subs[id].pushed == s.subs[id].pushed
    decreases |steps|
  {
    if steps != [] {
      SilentStep(s, steps[0], id);
      ClosedSubscribersStaySilent(Next(s, steps[0]), steps[1..], id);
    }
  }
}
