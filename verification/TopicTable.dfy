/** The locked sections of a topic object, matching the steps of the topic machine. */
module TopicTable {
  import opened Topic

  /** The table holds weak references: an entry may outlive its subscriber. */
  class TopicState {
    var subscribers: set<Id>
    var nextSubscriberId: Id
    var dispatcherStarted: bool

    /** The parts of the topic machine this object stores. */
    ghost predicate Stores<T>(s: State<T>)
      reads this
    {
      subscribers == s.registered && nextSubscriberId == s.nextId && dispatcherStarted == s.started
    }

    constructor <T(!new)>(ghost topicCapacity: nat, ghost subscriptionCapacity: nat)
      ensures Stores(Init<T>(topicCapacity, subscriptionCapacity))
    {
      subscribers, nextSubscriberId, dispatcherStarted := {}, 1, false;
    }

    method AddSubscriber<T(!new)>(ghost s: State<T>) returns (id: Id)
      requires Stores(s)
      modifies this`subscribers, this`nextSubscriberId
      ensures Stores(Next(s, Subscribe)) && id in Next(s, Subscribe).subs && id == s.nextId
    {
      id := nextSubscriberId;
      nextSubscriberId := nextSubscriberId + 1;
      subscribers := subscribers + {id};
    }

    method RemoveSubscriber<T(!new)>(id: Id, ghost s: State<T>)
      requires Stores(s)
      modifies this`subscribers
      ensures Stores(Next(s, Unregister(id)))
    {
      subscribers := subscribers - {id};
    }

    /** The snapshot a message is fanned out to; entries of vanished subscribers are pruned. */
    method CollectSubscribers<T(!new)>(alive: set<Id>, ghost s: State<T>, ghost k: nat) returns (found: seq<Id>)
      requires Stores(s) && k < |s.loops| && s.loops[k].Collecting?
      requires forall id :: id in alive <==> id in s.subs && s.subs[id].alive
      modifies this`subscribers
      ensures Snapshot(s, found) && Stores(Next(s, Collect(k, found)))
      ensures Next(s, Collect(k, found)).loops[k] == Fan(s.loops[k].payload, found, 0, false)
    {
      found := [];
      var todo := subscribers;
      while todo != {}
        invariant todo <= s.registered && nextSubscriberId == s.nextId && dispatcherStarted == s.started
        invariant forall i, j :: 0 <= i < j < |found| ==> found[i] != found[j]
        invariant forall id :: id in found <==> id in s.registered && id !in todo && id in alive
        invariant forall id :: id in subscribers <==> id in s.registered && (id in todo || id in alive)
        decreases todo
      {
        var id :| id in todo;
        if id in alive {
          found := found + [id];
        } else {
          subscribers := subscribers - {id};
        }
        todo := todo - {id};
      }
      assert Snapshot(s, found);
      hide Snapshot;
    }

    method MarkDispatcherStarted<T(!new)>(ghost s: State<T>) returns (first: bool)
      requires Stores(s)
      modifies this`dispatcherStarted
      ensures Stores(Next(s, MarkStarted)) && first == (Next(s, MarkStarted) != s)
    {
      if dispatcherStarted {
        return false;
      }
      dispatcherStarted := true;
      return true;
    }
  }
}
