/**
  Messages get through: from every state a topic can be in, the dispatcher and the
  consumers can go on until everything accepted has reached the subscribers.
 */
module TopicProgress {
  import opened Wrappers
  import opened Topic

  /** An open topic with room takes a message, at the end; no other topic does. */
  lemma PublishIsExact<T(!new)>(s: State<T>, v: T)
    ensures var t := Next(s, Publish(v));
            if s.ingressOpen && |s.ingress| < s.ingressCapacity
            then t.accepted == s.accepted + [v] && t.ingress == s.ingress + [v] && t.received == s.received
            else t == s
  {}

  /** A new subscriber is registered, open and has received nothing yet. */
  lemma SubscribersStartReady<T(!new)>(s: State<T>)
    ensures var t := Next(s, Subscribe);
            && Ready(t, s.nextId) && t.subs[s.nextId].pushed == [] && t.subs[s.nextId].joined == |s.received|
            && (forall id :: Ready(s, id) ==> Ready(t, id))
  {}

  ghost predicate Ready<T>(s: State<T>, id: Id) {
    id in s.registered && id in s.subs && s.subs[id].alive && !Refuses(s.subs[id])
  }

  /** The steps of a dispatch loop and of consumers. */
  predicate Serves<T>(step: Step<T>) {
    || step.Receive? || step.Collect? || step.Skip? || step.BeginSend? || step.Push? || step.FailSend?
    || step.NextRound? || step.Consume?
  }

  /** Nothing is lost on the way: what was accepted, and who can be served. */
  ghost predicate Carries<T>(s: State<T>, t: State<T>) {
    && t.accepted == s.accepted && t.capacity == s.capacity && |t.loops| == |s.loops|
    && (forall id :: Ready(s, id) ==> Ready(t, id) && t.subs[id].joined == s.subs[id].joined)
  }

  // ---------- how far the loop has to go ----------

  function Phase<T>(loop: Loop<T>): nat {
    match loop
    case Receiving => 0
    case Collecting(_) => 2
    case Fan(_, _, _, _) => 1
  }

  function ToGo<T>(loop: Loop<T>): nat {
    if loop.Fan? && loop.index <= |loop.targets| then |loop.targets| - loop.index else 0
  }

  /** Before the send, waiting for room, or ready to push. */
  ghost function Wait<T>(s: State<T>): nat
    requires |s.loops| == 1
  {
    if !s.loops[0].Fan? || !s.loops[0].sending then 2
    else if At(s, 0, true) && |s.subs[Target(s, 0, true)].buffer| >= s.capacity then 1
    else 0
  }

  ghost predicate Nearer<T>(s: State<T>, t: State<T>)
    requires |s.loops| == 1 && |t.loops| == 1
  {
    || |t.ingress| < |s.ingress|
    || (|t.ingress| == |s.ingress| && Phase(t.loops[0]) < Phase(s.loops[0]))
    || (|t.ingress| == |s.ingress| && Phase(t.loops[0]) == Phase(s.loops[0]) && ToGo(t.loops[0]) < ToGo(s.loops[0]))
    || (|t.ingress| == |s.ingress| && Phase(t.loops[0]) == Phase(s.loops[0]) && ToGo(t.loops[0]) == ToGo(s.loops[0])
        && Wait(t) < Wait(s))
  }

  ghost predicate Working<T>(s: State<T>) {
    Inv(s) && |s.loops| == 1 && s.capacity > 0
  }

  ghost predicate Idle<T>(s: State<T>) { s.loops == [Receiving] && s.ingress == [] }

  // ---------- one step nearer ----------

  lemma {:induction false} AsSequence(ids: set<Id>) returns (q: seq<Id>)
    ensures (forall i, j :: 0 <= i < j < |q| ==> q[i] != q[j]) && forall id :: id in q <==> id in ids
    decreases ids
  {
    q := [];
    if ids != {} {
      var x :| x in ids;
      var rest := AsSequence(ids - {x});
      q := [x] + rest;
    }
  }

  lemma ReceiveOn<T(!new)>(s: State<T>)
    requires Working(s) && s.loops[0].Receiving? && s.ingress != []
    ensures Carries(s, Next(s, Receive(0))) && Nearer(s, Next(s, Receive(0)))
  {}

  lemma CollectOn<T(!new)>(s: State<T>) returns (targets: seq<Id>)
    requires Working(s) && s.loops[0].Collecting?
    ensures Carries(s, Next(s, Collect(0, targets))) && Nearer(s, Next(s, Collect(0, targets)))
  {
    targets := AsSequence(set id | id in s.registered && id in s.subs && s.subs[id].alive);
    assert Snapshot(s, targets);
    hide Inv, Snapshot;
  }

  lemma RoundOn<T(!new)>(s: State<T>)
    requires Working(s) && s.loops[0].Fan? && s.loops[0].index >= |s.loops[0].targets|
    ensures Carries(s, Next(s, NextRound(0))) && Nearer(s, Next(s, NextRound(0)))
  {
    hide Inv;
  }

  lemma AtTarget<T(!new)>(s: State<T>)
    requires Working(s) && s.loops[0].Fan? && s.loops[0].index < |s.loops[0].targets|
    ensures At(s, 0, s.loops[0].sending)
  {
    assert InStep(s, s.loops[0]);
  }

  lemma SkipOn<T(!new)>(s: State<T>)
    requires Working(s) && At(s, 0, false) && Refuses(s.subs[Target(s, 0, false)])
    ensures Carries(s, Next(s, Skip(0))) && Nearer(s, Next(s, Skip(0)))
  {
    hide Inv;
  }

  lemma BeginOn<T(!new)>(s: State<T>)
    requires Working(s) && At(s, 0, false) && !Refuses(s.subs[Target(s, 0, false)])
    ensures Carries(s, Next(s, BeginSend(0))) && Nearer(s, Next(s, BeginSend(0)))
  {
    hide Inv;
  }

  lemma FailOn<T(!new)>(s: State<T>)
    requires Working(s) && At(s, 0, true) && !s.subs[Target(s, 0, true)].open
    ensures Carries(s, Next(s, FailSend(0))) && Nearer(s, Next(s, FailSend(0)))
  {
    hide Inv;
  }

  lemma PushOn<T(!new)>(s: State<T>)
    requires Working(s) && At(s, 0, true)
    requires s.subs[Target(s, 0, true)].open && |s.subs[Target(s, 0, true)].buffer| < s.capacity
    ensures Carries(s, Next(s, Push(0))) && Nearer(s, Next(s, Push(0)))
  {
    hide Inv;
  }

  lemma ConsumeOn<T(!new)>(s: State<T>)
    requires Working(s) && At(s, 0, true) && |s.subs[Target(s, 0, true)].buffer| >= s.capacity
    ensures var t := Next(s, Consume(Target(s, 0, true))); Carries(s, t) && Nearer(s, t)
  {
    var id := Target(s, 0, true);
    assert GoodSub(s.subs[id], s.received, s.capacity);
    hide Inv;
  }

  lemma StepOn<T(!new)>(s: State<T>) returns (step: Step<T>)
    requires Working(s) && !Idle(s)
    ensures Serves(step) && Carries(s, Next(s, step)) && Nearer(s, Next(s, step))
  {
    hide Carries, Nearer, Next, Inv;
    match s.loops[0] {
      case Receiving =>
        assert s.loops == [Receiving];
        ReceiveOn(s);
        step := Receive(0);
      case Collecting(_) =>
        var targets := CollectOn(s);
        step := Collect(0, targets);
      case Fan(_, targets, index, sending) =>
        if index >= |targets| {
          RoundOn(s);
          step := NextRound(0);
        } else {
          AtTarget(s);
          step := FanOn(s);
        }
    }
  }

  lemma FanOn<T(!new)>(s: State<T>) returns (step: Step<T>)
    requires Working(s) && s.loops[0].Fan? && At(s, 0, s.loops[0].sending)
    ensures Serves(step) && Carries(s, Next(s, step)) && Nearer(s, Next(s, step))
  {
    hide Carries, Nearer, Next, Inv;
    if !s.loops[0].sending {
      if Refuses(s.subs[Target(s, 0, false)]) {
        SkipOn(s);
        step := Skip(0);
      } else {
        BeginOn(s);
        step := BeginSend(0);
      }
    } else if !s.subs[Target(s, 0, true)].open {
      FailOn(s);
      step := FailSend(0);
    } else if |s.subs[Target(s, 0, true)].buffer| < s.capacity {
      PushOn(s);
      step := Push(0);
    } else {
      ConsumeOn(s);
      step := Consume(Target(s, 0, true));
    }
  }

  // ---------- all the way ----------

  ghost predicate AllServe<T>(steps: seq<Step<T>>) { forall i :: 0 <= i < |steps| ==> Serves(steps[i]) }

  lemma RunFirst<T(!new)>(s: State<T>, step: Step<T>, more: seq<Step<T>>)
    ensures Run(s, [step] + more) == Run(Next(s, step), more)
    ensures AllServe(more) && Serves(step) ==> AllServe([step] + more)
  {
    assert ([step] + more)[1..] == more;
    hide Next;
  }

  lemma {:induction false} RunTwice<T(!new)>(s: State<T>, a: seq<Step<T>>, b: seq<Step<T>>)
    ensures Run(s, a + b) == Run(Run(s, a), b)
    decreases |a|
  {
    if a == [] {
      assert a + b == b;
    } else {
      assert (a + b)[1..] == a[1..] + b && (a + b)[0] == a[0];
      hide Next;
      RunTwice(Next(s, a[0]), a[1..], b);
    }
  }

  lemma CarriesOn<T>(s: State<T>, t: State<T>, u: State<T>)
    requires Carries(s, t) && Carries(t, u)
    ensures Carries(s, u)
  {
    hide Ready;
  }

  lemma {:induction false} DrainTopic<T(!new)>(s: State<T>) returns (steps: seq<Step<T>>)
    requires Working(s)
    ensures AllServe(steps) && Carries(s, Run(s, steps)) && Working(Run(s, steps)) && Idle(Run(s, steps))
    decreases |s.ingress|, Phase(s.loops[0]), ToGo(s.loops[0]), Wait(s)
  {
    steps := [];
    if !Idle(s) {
      var step := StepOn(s);
      var t := Next(s, step);
      NextInv(s, step);
      assert Working(t) by { hide Inv, Next; }
      hide Inv, Next, Carries, Serves;
      var more := DrainTopic(t);
      steps := [step] + more;
      RunFirst(s, step, more);
      CarriesOn(s, t, Run(t, more));
    }
  }

  /** A consumer can read everything it was given. */
  lemma {:induction false} ReadAll<T(!new)>(s: State<T>, id: Id) returns (steps: seq<Step<T>>)
    requires Working(s) && Idle(s) && Ready(s, id)
    ensures AllServe(steps) && Working(Run(s, steps)) && Idle(Run(s, steps)) && Carries(s, Run(s, steps))
    ensures var t := Run(s, steps);
            id in t.subs && t.subs[id].buffer == [] && t.received == s.received
    decreases |s.subs[id].buffer|
  {
    steps := [];
    if s.subs[id].buffer != [] {
      var t := Next(s, Consume(id));
      assert Carries(s, t) && Idle(t) && t.received == s.received by { hide Inv; }
      NextInv(s, Consume(id));
      assert Working(t) by { hide Inv; }
      var more := ReadAll(t, id);
      hide Inv, Next, Carries;
      steps := [Consume(id)] + more;
      RunFirst(s, Consume(id), more);
      CarriesOn(s, t, Run(t, more));
    }
  }

  // ---------- the theorem ----------

  /** The dispatcher runs, is being started, or has never been started. */
  ghost predicate Startable<T>(s: State<T>) { |s.loops| == 1 || s.starters > 0 || !s.started }

  predicate Goes<T>(step: Step<T>) { Serves(step) || step.MarkStarted? || step.StartLoop? }

  lemma StartUp<T(!new)>(s: State<T>) returns (steps: seq<Step<T>>)
    requires Inv(s) && s.capacity > 0 && Startable(s)
    ensures Working(Run(s, steps)) && forall i :: 0 <= i < |steps| ==> Goes(steps[i])
    ensures var t := Run(s, steps);
            t.accepted == s.accepted && forall id :: Ready(s, id) ==>
                Ready(t, id) && t.subs[id].joined == s.subs[id].joined
  {
    steps := [];
    if |s.loops| == 0 {
      var t := if s.starters > 0 then s else Next(s, MarkStarted);
      NextInv(s, MarkStarted);
      NextInv(t, StartLoop);
      var u := Next(t, StartLoop);
      assert |u.loops| == 1 && u.capacity == s.capacity && u.accepted == s.accepted;
      assert forall id :: Ready(s, id) ==> Ready(u, id) && u.subs[id].joined == s.subs[id].joined;
      hide Inv, Next, Ready;
      if s.starters > 0 {
        steps := [StartLoop];
        RunFirst(s, StartLoop, []);
      } else {
        steps := [MarkStarted] + ([StartLoop] + []);
        RunFirst(s, MarkStarted, [StartLoop] + []);
        RunFirst(t, StartLoop, []);
      }
    }
  }

  lemma AfterInit<T(!new)>(tc: nat, sc: nat, steps: seq<Step<T>>)
    ensures Inv(Run(Init<T>(tc, sc), steps)) && Run(Init<T>(tc, sc), steps).capacity > 0
  {
    InitInv<T>(tc, sc);
    RunInv(Init<T>(tc, sc), steps);
    CapacityStays(Init<T>(tc, sc), steps);
  }

  lemma Complete<T(!new)>(s: State<T>, id: Id)
    requires Working(s) && Idle(s) && Ready(s, id) && s.subs[id].buffer == []
    ensures s.received == s.accepted
    ensures exists a :: 0 <= a && s.subs[id].joined - 1 <= a <= s.subs[id].joined <= |s.accepted|
              && s.subs[id].taken == s.accepted[a..]
  {
    var sub := s.subs[id];
    assert InStep(s, s.loops[0]) && GoodSub(sub, s.received, s.capacity);
    assert s.received + [] == s.received && sub.taken + [] == sub.taken;
    assert sub.pushed == s.received[if sub.since.Some? then sub.since.value else sub.joined..];
  }

  /** From every reachable state of a topic whose dispatcher has not ended, and for every
      subscriber that is registered, alive and open there: dispatcher and consumers can go
      on, without anybody publishing, subscribing or closing, until the dispatcher is idle,
      nothing is left in the ingress, and the subscriber has read every message accepted
      since it joined, in order, and at most one from before. */
  lemma MessagesGetThrough<T(!new)>(tc: nat, sc: nat, steps: seq<Step<T>>, id: Id) returns (more: seq<Step<T>>)
    requires var s := Run(Init<T>(tc, sc), steps); Startable(s) && Ready(s, id)
    ensures forall i :: 0 <= i < |more| ==> Goes(more[i])
    ensures var s := Run(Init<T>(tc, sc), steps);
            var t := Run(s, more);
            && Idle(t) && t.accepted == s.accepted && t.received == s.accepted
            && Ready(t, id) && t.subs[id].joined == s.subs[id].joined
            && exists a :: 0 <= a && t.subs[id].joined - 1 <= a <= t.subs[id].joined <= |s.accepted|
                 && t.subs[id].taken == s.accepted[a..]
  {
    var s := Run(Init<T>(tc, sc), steps);
    AfterInit<T>(tc, sc, steps);
    hide Inv, Next, Run, Init;
    var a := StartUp(s);
    var s1 := Run(s, a);
    var b := DrainTopic(s1);
    var s2 := Run(s1, b);
    var c := ReadAll(s2, id);
    var s3 := Run(s2, c);
    more := a + (b + c);
    RunTwice(s, a, b + c);
    RunTwice(s1, b, c);
    Complete(s3, id);
  }

  // ---------- what closing does ----------

  /** Once its ingress is closed, a topic accepts nothing more. */
  lemma {:induction false} ClosedTopicsAcceptNothing<T(!new)>(s: State<T>, steps: seq<Step<T>>)
    ensures Run(Next(s, CloseIngress), steps).accepted == s.accepted
  {
    StaysShut(Next(s, CloseIngress), steps);
  }

  lemma {:induction false} StaysShut<T(!new)>(s: State<T>, steps: seq<Step<T>>)
    requires !s.ingressOpen
    ensures Run(s, steps).accepted == s.accepted
    decreases |steps|
  {
    if steps != [] { StaysShut(Next(s, steps[0]), steps[1..]); }
  }

  /** Closing a subscriber's channel silences it for good. */
  lemma ClosingSilences<T(!new)>(tc: nat, sc: nat, before: seq<Step<T>>, id: Id, steps: seq<Step<T>>)
    requires id in Run(Init<T>(tc, sc), before).subs
    ensures var s := Run(Init<T>(tc, sc), before);
            var t := Run(Next(s, CloseEgress(id)), steps);
            id in t.subs && t.subs[id].pushed == s.subs[id].pushed
  {
    var s := Run(Init<T>(tc, sc), before);
    AfterInit<T>(tc, sc, before);
    ClosedSubscribersStaySilent(Next(s, CloseEgress(id)), steps, id);
  }

  /** Out of the table, or dead, and in no fan-out: never to be served again. */
  ghost predicate Gone<T>(s: State<T>, id: Id) {
    && id in s.subs && id < s.nextId && (id !in s.registered || !s.subs[id].alive)
    && (forall k :: 0 <= k < |s.loops| && s.loops[k].Fan? ==> id !in s.loops[k].targets)
  }

  lemma GoneStays<T(!new)>(s: State<T>, step: Step<T>, id: Id)
    requires Gone(s, id)
    ensures Gone(Next(s, step), id) && Next(s, step).subs[id].pushed == s.subs[id].pushed
  {
    if step.Collect? {
      GoneAtCollect(s, step, id);
    } else if step.Skip? || step.BeginSend? || step.Push? || step.FailSend? || step.NextRound? {
      GoneAtSend(s, step, id);
    } else if AtIngress(step) {
      GoneAtIngress(s, step, id);
    } else {
      GoneElsewhere(s, step, id);
    }
    hide Next, Gone;
  }

  predicate AtIngress<T>(step: Step<T>) {
    || step.Publish? || step.MarkStarted? || step.StartLoop? || step.Receive? || step.EndLoop? || step.CloseIngress?
  }

  predicate AtSubscriber<T>(step: Step<T>) {
    || step.Subscribe? || step.Consume? || step.SetClosed? || step.CloseEgress? || step.Unregister? || step.Expire?
  }

  predicate AtSend<T>(step: Step<T>) { step.Skip? || step.BeginSend? || step.Push? || step.FailSend? }

  lemma GoneAtCollect<T(!new)>(s: State<T>, step: Step<T>, id: Id)
    requires Gone(s, id) && step.Collect?
    ensures Gone(Next(s, step), id) && Next(s, step).subs[id].pushed == s.subs[id].pushed
  {}

  lemma GoneAtSend<T(!new)>(s: State<T>, step: Step<T>, id: Id)
    requires Gone(s, id) && (step.Skip? || step.BeginSend? || step.Push? || step.FailSend? || step.NextRound?)
    ensures Gone(Next(s, step), id) && Next(s, step).subs[id].pushed == s.subs[id].pushed
  {}

  lemma GoneAtIngress<T(!new)>(s: State<T>, step: Step<T>, id: Id)
    requires Gone(s, id)
    requires AtIngress(step)
    ensures Gone(Next(s, step), id) && Next(s, step).subs[id].pushed == s.subs[id].pushed
  {}

  lemma GoneElsewhere<T(!new)>(s: State<T>, step: Step<T>, id: Id)
    requires Gone(s, id)
    requires AtSubscriber(step)
    ensures Gone(Next(s, step), id) && Next(s, step).subs[id].pushed == s.subs[id].pushed
  {}

  lemma {:induction false} GoneForever<T(!new)>(s: State<T>, steps: seq<Step<T>>, id: Id)
    requires Gone(s, id)
    ensures id in Run(s, steps).subs && Run(s, steps).subs[id].pushed == s.subs[id].pushed
    decreases |steps|
  {
    if steps != [] {
      GoneStays(s, steps[0], id);
      hide Next;
      GoneForever(Next(s, steps[0]), steps[1..], id);
    }
  }

  /** A subscriber taken out of the table, or one that no longer exists, between two
      fan-outs is never served again. */
  lemma RemovedAreForgotten<T(!new)>(tc: nat, sc: nat, before: seq<Step<T>>, id: Id, step: Step<T>, steps: seq<Step<T>>)
    requires var s := Run(Init<T>(tc, sc), before);
             id in s.subs && forall k :: 0 <= k < |s.loops| ==> !s.loops[k].Fan?
    requires step == Unregister(id) || step == Expire(id)
    ensures var s := Run(Init<T>(tc, sc), before);
            var t := Run(Next(s, step), steps);
            id in t.subs && t.subs[id].pushed == s.subs[id].pushed
  {
    var s := Run(Init<T>(tc, sc), before);
    AfterInit<T>(tc, sc, before);
    GoneForever(Next(s, step), steps, id);
  }

  predicate SendingTo<T>(loop: Loop<T>, id: Id) {
    loop.Fan? && loop.sending && loop.index < |loop.targets| && loop.targets[loop.index] == id
  }

  /** Flagged as closed, and no send to it is on its way. */
  ghost predicate Muted<T>(s: State<T>, id: Id) {
    && id in s.subs && id < s.nextId && s.subs[id].closed
    && (forall k :: 0 <= k < |s.loops| ==> !SendingTo(s.loops[k], id))
  }

  lemma MutedAtSend<T(!new)>(s: State<T>, step: Step<T>, id: Id)
    requires Muted(s, id) && AtSend(step)
    ensures Muted(Next(s, step), id) && Next(s, step).subs[id].pushed == s.subs[id].pushed
  {}

  lemma MutedAtIngress<T(!new)>(s: State<T>, step: Step<T>, id: Id)
    requires Muted(s, id) && AtIngress(step)
    ensures Muted(Next(s, step), id) && Next(s, step).subs[id].pushed == s.subs[id].pushed
  {}

  lemma MutedElsewhere<T(!new)>(s: State<T>, step: Step<T>, id: Id)
    requires Muted(s, id) && !AtSend(step) && !AtIngress(step)
    ensures Muted(Next(s, step), id) && Next(s, step).subs[id].pushed == s.subs[id].pushed
  {}

  lemma {:induction false} MutedForever<T(!new)>(s: State<T>, steps: seq<Step<T>>, id: Id)
    requires Muted(s, id)
    ensures id in Run(s, steps).subs && Run(s, steps).subs[id].pushed == s.subs[id].pushed
    decreases |steps|
  {
    if steps != [] {
      if AtSend(steps[0]) {
        MutedAtSend(s, steps[0], id);
      } else if AtIngress(steps[0]) {
        MutedAtIngress(s, steps[0], id);
      } else {
        MutedElsewhere(s, steps[0], id);
      }
      hide Next, Muted;
      MutedForever(Next(s, steps[0]), steps[1..], id);
    }
  }

  /** The flag alone is enough: set while no send to the subscriber is on its way, it
      keeps every later message from it. */
  lemma FlagSilences<T(!new)>(tc: nat, sc: nat, before: seq<Step<T>>, id: Id, steps: seq<Step<T>>)
    requires var s := Run(Init<T>(tc, sc), before);
             id in s.subs && forall k :: 0 <= k < |s.loops| ==> !(s.loops[k].Fan? && s.loops[k].sending)
    ensures var s := Run(Init<T>(tc, sc), before);
            var t := Run(Next(s, SetClosed(id)), steps);
            id in t.subs && t.subs[id].pushed == s.subs[id].pushed
  {
    var s := Run(Init<T>(tc, sc), before);
    AfterInit<T>(tc, sc, before);
    MutedForever(Next(s, SetClosed(id)), steps, id);
  }

  /** A waiting loop ends exactly when the ingress is closed. */
  lemma LoopsEndWhenClosed<T(!new)>(s: State<T>)
    requires s.loops == [Receiving]
    ensures Next(s, EndLoop(0)).loops == if s.ingressOpen then [Receiving] else []
  {}
}
