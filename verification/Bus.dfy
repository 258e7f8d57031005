/**
  The table of topics: which topic a name stands for, and which names are closed
  for good.  Every locked section of the bus state is a method; histories of
  these sections are runs of `Next`.
 */
module Bus {
  import opened Wrappers

  type Topic = nat

  datatype Registry = Registry(closed: bool, topics: map<string, Topic>, closedTopics: set<string>, created: nat)

  datatype Event =
    | Lookup(name: string)
    | CloseName(name: string)
    | CloseFlag
    | Drain

  /** The locked section of looking a topic up; `None` is a refusal. */
  function GetOrCreate(r: Registry, name: string): (Registry, Option<Topic>) {
    if r.closed || name in r.closedTopics then (r, None)
    else if name in r.topics then (r, Some(r.topics[name]))
    else (r.(topics := r.topics[name := r.created], created := r.created + 1), Some(r.created))
  }

  /** The second part is the topic the caller must now close. */
  function CloseTopic(r: Registry, name: string): (Registry, Option<Topic>) {
    (r.(closedTopics := r.closedTopics + {name}, topics := r.topics - {name}),
     if name in r.topics then Some(r.topics[name]) else None)
  }

  function DrainAll(r: Registry): (Registry, set<Topic>) {
    (r.(topics := map[], closedTopics := {}), r.topics.Values)
  }

  class BusState {
    var closed: bool
    var topics: map<string, Topic>
    var closedTopics: set<string>
    var created: nat

    ghost function State(): Registry
      reads this
    {
      Registry(closed, topics, closedTopics, created)
    }

    method GetOrCreateTopic(name: string) returns (topic: Option<Topic>)
      modifies this`topics, this`created
      ensures (State(), topic) == GetOrCreate(old(State()), name)
    {
      if closed {
        return None;
      }
      if name in closedTopics {
        return None;
      }
      if name in topics {
        return Some(topics[name]);
      }
      topic := Some(created);
      topics := topics[name := created];
      created := created + 1;
    }

    method CloseTopicName(name: string) returns (topic: Option<Topic>)
      modifies this`topics, this`closedTopics
      ensures (State(), topic) == CloseTopic(old(State()), name)
    {
      closedTopics := closedTopics + {name};
      if name !in topics {
        assert topics - {name} == topics;
        return None;
      }
      topic := Some(topics[name]);
      topics := topics - {name};
    }

    /** The exchange at the start of `close`: only the first caller goes on to drain. */
    method SetClosed() returns (first: bool)
      modifies this`closed
      ensures State() == old(State()).(closed := true) && first == !old(closed)
    {
      first := !closed;
      closed := true;
    }

    /** The locked section of `close`: collects the topics and empties both tables. */
    method DrainTopics() returns (active: seq<Topic>)
      modifies this`topics, this`closedTopics
      ensures (State(), set k | k in active) == DrainAll(old(State()))
    {
      active := [];
      var todo := topics.Keys;
      while todo != {}
        invariant todo <= topics.Keys && topics == old(topics) && closedTopics == old(closedTopics)
        invariant forall k :: k in active <==> exists n :: n in topics && n !in todo && topics[n] == k
        decreases todo
      {
        var n :| n in todo;
        active := active + [topics[n]];
        todo := todo - {n};
      }
      forall k ensures k in active <==> k in topics.Values {
        assert k in topics.Values <==> exists n :: n in topics && topics[n] == k;
      }
      assert (set k | k in active) == old(topics).Values;
      topics := map[];
      closedTopics := {};
    }
  }

  /** One history: the table, the topics somebody has been told to close, whether the
      draining section of `close` has run, and what every lookup answered. */
  datatype Trace = Trace(registry: Registry, toClose: set<Topic>, drained: bool, answers: seq<(string, Option<Topic>)>)

  function Next(t: Trace, e: Event): Trace {
    match e
    case Lookup(name) =>
      var (r, topic) := GetOrCreate(t.registry, name);
      t.(registry := r, answers := t.answers + [(name, topic)])
    case CloseName(name) =>
      var (r, topic) := CloseTopic(t.registry, name);
      t.(registry := r, toClose := if topic.Some? then t.toClose + {topic.value} else t.toClose)
    case CloseFlag => t.(registry := t.registry.(closed := true))
    case Drain =>
      if !t.registry.closed then t
      else var (r, topics) := DrainAll(t.registry);
           t.(registry := r, toClose := t.toClose + topics, drained := true)
  }

  function Run(t: Trace, events: seq<Event>): Trace
    decreases |events|
  {
    if events == [] then t else Run(Next(t, events[0]), events[1..])
  }

  ghost predicate Live(r: Registry, k: Topic) {
    exists n :: n in r.topics && r.topics[n] == k
  }

  ghost predicate Inv(t: Trace) {
    var r := t.registry;
    && (forall n :: n in r.topics ==> r.topics[n] < r.created && n !in r.closedTopics && r.topics[n] !in t.toClose)
    && (forall n, m :: n in r.topics && m in r.topics && r.topics[n] == r.topics[m] ==> n == m)
    && (forall k :: k in t.toClose ==> k < r.created)
    && (forall k :: 0 <= k < r.created ==> k in t.toClose || Live(r, k))
    && (t.drained ==> r.closed && r.topics == map[])
  }

  lemma LookupInv(t: Trace, name: string)
    requires Inv(t)
    ensures Inv(Next(t, Lookup(name)))
  {
    var r, r' := t.registry, Next(t, Lookup(name)).registry;
    forall k | 0 <= k < r'.created && k !in t.toClose ensures Live(r', k) {
      if k < r.created {
        var n :| n in r.topics && r.topics[n] == k;
        assert n in r'.topics && r'.topics[n] == k;
      } else {
        assert name in r'.topics && r'.topics[name] == k;
      }
    }
  }

  lemma CloseNameInv(t: Trace, name: string)
    requires Inv(t)
    ensures Inv(Next(t, CloseName(name)))
  {
    var t', r, r' := Next(t, CloseName(name)), t.registry, Next(t, CloseName(name)).registry;
    forall k | 0 <= k < r'.created && k !in t'.toClose ensures Live(r', k) {
      var n :| n in r.topics && r.topics[n] == k;
      assert n in r'.topics && r'.topics[n] == k;
    }
  }

  lemma DrainInv(t: Trace)
    requires Inv(t)
    ensures Inv(Next(t, Drain))
  {
    var t', r := Next(t, Drain), t.registry;
    if r.closed {
      forall k | 0 <= k < r.created ensures k in t'.toClose {
        if k !in t.toClose {
          var n :| n in r.topics && r.topics[n] == k;
          assert r.topics[n] in r.topics.Values;
        }
      }
      forall k | k in r.topics.Values ensures k < r.created {
        var n :| n in r.topics && r.topics[n] == k;
      }
    }
  }

  lemma NextInv(t: Trace, e: Event)
    requires Inv(t)
    ensures Inv(Next(t, e))
  {
    match e
    case Lookup(name) => LookupInv(t, name);
    case CloseName(name) => CloseNameInv(t, name);
    case Drain => DrainInv(t);
    case CloseFlag =>
      var t' := Next(t, e);
      forall k | Live(t.registry, k) ensures Live(t'.registry, k) {
        var n :| n in t.registry.topics && t.registry.topics[n] == k;
        assert n in t'.registry.topics && t'.registry.topics[n] == k;
      }
  }

  lemma {:induction false} RunInv(t: Trace, events: seq<Event>)
    requires Inv(t)
    ensures Inv(Run(t, events)) && (t.registry.closed ==> Run(t, events).registry.closed)
    ensures t.drained ==> Run(t, events).drained && Run(t, events).registry.created == t.registry.created
    decreases |events|
  {
    if events != [] {
      NextInv(t, events[0]);
      RunInv(Next(t, events[0]), events[1..]);
    }
  }

  const START: Trace := Trace(Registry(false, map[], {}, 0), {}, false, [])

  /** After `close` has drained the table, every topic ever made has been handed to
      somebody to close, and no lookup ever makes or finds another. */
  lemma ClosedBusLeaksNoTopic(events: seq<Event>, later: seq<Event>, name: string)
    requires Run(START, events).drained
    ensures var t := Run(Run(START, events), later);
            && (forall k :: 0 <= k < t.registry.created ==> k in t.toClose)
            && t.registry.created == Run(START, events).registry.created
            && GetOrCreate(t.registry, name) == (t.registry, None)
  {
    RunInv(START, events);
    RunInv(Run(START, events), later);
  }

  lemma {:induction false} ClosedNameStays(t: Trace, events: seq<Event>, name: string)
    requires name in t.registry.closedTopics || t.registry.closed
    ensures GetOrCreate(Run(t, events).registry, name).1 == None
    decreases |events|
  {
    if events != [] {
      ClosedNameStays(Next(t, events[0]), events[1..], name);
    }
  }

  /** A name that was closed never stands for a topic again, whatever happens later,
      even though closing the whole bus forgets the closed names. */
  lemma ClosedNamesNeverReopen(events: seq<Event>, later: seq<Event>, name: string)
    ensures GetOrCreate(Run(Next(Run(START, events), CloseName(name)), later).registry, name).1 == None
  {
    ClosedNameStays(Next(Run(START, events), CloseName(name)), later, name);
  }

  // ---------- what lookups answer ----------

  /** What a lookup would answer now. */
  function Answer(t: Trace, name: string): Option<Topic> {
    var after := Next(t, Lookup(name)).answers;
    if after == [] then None else after[|after| - 1].1
  }

  /** Nobody closes that name, or the bus. */
  predicate Quiet(events: seq<Event>, name: string) {
    CloseFlag !in events && CloseName(name) !in events
  }

  ghost predicate Standing(t: Trace, name: string, answer: Option<Topic>) {
    match answer
    case None => t.registry.closed || name in t.registry.closedTopics
    case Some(k) =>
      && !t.registry.closed && name !in t.registry.closedTopics
      && name in t.registry.topics && t.registry.topics[name] == k
  }

  lemma {:induction false} StandingStays(t: Trace, events: seq<Event>, name: string, answer: Option<Topic>)
    requires Standing(t, name, answer) && Quiet(events, name)
    ensures Standing(Run(t, events), name, answer)
    decreases |events|
  {
    if events != [] {
      assert Quiet(events[1..], name) && events[0] in events;
      StandingStays(Next(t, events[0]), events[1..], name, answer);
    }
  }

  /** Two lookups of one name give the same answer, the same topic or a refusal, as long
      as nobody closes that name or the bus in between. */
  lemma SameNameSameTopic(before: seq<Event>, between: seq<Event>, name: string)
    requires Quiet(between, name)
    ensures var t := Run(START, before);
            Answer(Run(Next(t, Lookup(name)), between), name) == Answer(t, name)
  {
    var t := Run(START, before);
    assert Standing(Next(t, Lookup(name)), name, Answer(t, name));
    StandingStays(Next(t, Lookup(name)), between, name, Answer(t, name));
  }

  /** Which name a topic was made for; kept apart from the table. */
  ghost predicate Owned(t: Trace, owner: seq<string>) {
    && |owner| == t.registry.created
    && (forall n :: n in t.registry.topics ==> t.registry.topics[n] < |owner| && owner[t.registry.topics[n]] == n)
    && (forall i :: 0 <= i < |t.answers| && t.answers[i].1.Some? ==>
          t.answers[i].1.value < |owner| && owner[t.answers[i].1.value] == t.answers[i].0)
  }

  lemma {:induction false} OwnersStay(t: Trace, events: seq<Event>, owner: seq<string>) returns (owner': seq<string>)
    requires Owned(t, owner)
    ensures Owned(Run(t, events), owner')
    decreases |events|
  {
    owner' := owner;
    if events != [] {
      var e := events[0];
      var next := if e.Lookup? && Next(t, e).registry.created > t.registry.created then owner + [e.name] else owner;
      assert Owned(Next(t, e), next);
      owner' := OwnersStay(Next(t, e), events[1..], next);
    }
  }

  /** In every history, lookups of different names never give the same topic. */
  lemma DifferentNamesDifferentTopics(events: seq<Event>, i: nat, j: nat)
    requires i < |Run(START, events).answers| && j < |Run(START, events).answers|
    ensures var a := Run(START, events).answers;
            a[i].1.Some? && a[i].1 == a[j].1 ==> a[i].0 == a[j].0
  {
    var owner := OwnersStay(START, events, []);
  }

  lemma {:induction false} ClosedExactly(t: Trace, events: seq<Event>, name: string)
    ensures var r := Run(t, events).registry;
            (r.closed || name in r.closedTopics) <==>
              t.registry.closed || name in t.registry.closedTopics || !Quiet(events, name)
    decreases |events|
  {
    if events != [] {
      assert events == [events[0]] + events[1..];
      ClosedExactly(Next(t, events[0]), events[1..], name);
    }
  }

  /** In every history, a lookup is refused if and only if the bus or that name was closed before. */
  lemma RefusedExactly(events: seq<Event>, name: string)
    ensures Answer(Run(START, events), name) == None <==> CloseFlag in events || CloseName(name) in events
  {
    ClosedExactly(START, events, name);
  }
}
