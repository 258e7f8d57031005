/**
  The counting semaphore: its critical sections as functions on a value, and the
  object with the intrusive doubly linked waiter list that implements them.
 */
module Semaphore {
  /** `waiters` is in arrival order. */
  datatype Sem<W> = Sem(permits: nat, closed: bool, waiters: seq<W>)

  datatype Verdict = Denied | Granted | Queued

  ghost predicate Consistent<W>(s: Sem<W>) {
    && (s.permits > 0 ==> s.waiters == [])
    && (s.closed ==> s.permits == 0 && s.waiters == [])
    && Distinct(s.waiters)
  }

  ghost predicate Distinct<W>(q: seq<W>) {
    forall i, j :: 0 <= i < j < |q| ==> q[i] != q[j]
  }

  function Without<W(==)>(q: seq<W>, w: W): seq<W> {
    if q == [] then [] else if q[0] == w then q[1..] else [q[0]] + Without(q[1..], w)
  }

  function Acquire<W>(s: Sem<W>, w: W): (Sem<W>, Verdict) {
    if s.closed then (s, Denied)
    else if s.permits > 0 then (s.(permits := s.permits - 1), Granted)
    else (s.(waiters := s.waiters + [w]), Queued)
  }

  /** Hands permits to the longest waiting operations first; the second part is who got one. */
  function Release<W>(s: Sem<W>, n: int): (Sem<W>, seq<W>) {
    if n <= 0 || s.closed then (s, [])
    else if n <= |s.waiters| then (s.(waiters := s.waiters[n..]), s.waiters[..n])
    else (s.(permits := s.permits + (n - |s.waiters|), waiters := []), s.waiters)
  }

  function Close<W>(s: Sem<W>): (Sem<W>, seq<W>) {
    if s.closed then (s, []) else (Sem(0, true, []), s.waiters)
  }

  function Detach<W(==)>(s: Sem<W>, w: W): Sem<W> {
    s.(waiters := Without(s.waiters, w))
  }

  lemma {:induction false} WithoutAt<W>(q: seq<W>, i: nat)
    requires i < |q| && Distinct(q)
    ensures Without(q, q[i]) == q[..i] + q[i + 1..]
  {
    if i == 0 {
      assert q[..0] + q[1..] == q[1..];
    } else {
      assert q[0] != q[i] && q[1..][i - 1] == q[i];
      WithoutAt(q[1..], i - 1);
      assert [q[0]] + (q[1..][..i - 1] + q[1..][i..]) == q[..i] + q[i + 1..];
    }
  }

  lemma RemovedAt<W>(q: seq<W>, i: nat)
    requires i < |q| && Distinct(q)
    ensures var r := q[..i] + q[i + 1..];
            Distinct(r) && forall w :: w in r <==> w in q && w != q[i]
  {
    var r := q[..i] + q[i + 1..];
    forall w | w in q && w != q[i] ensures w in r {
      var k :| 0 <= k < |q| && q[k] == w;
      assert r[if k < i then k else k - 1] == w;
    }
  }

  lemma {:induction false} WithoutAbsent<W>(q: seq<W>, w: W)
    requires w !in q
    ensures Without(q, w) == q
  {
    if q != [] {
      WithoutAbsent(q[1..], w);
    }
  }

  lemma ReleaseNothing<W>(s: Sem<W>, n: int)
    ensures Release(s, 0) == (s, []) && (n <= 0 || s.closed ==> Release(s, n) == (s, []))
  {}

  /** Releasing one permit more pops one waiter more, or leaves one permit more. */
  lemma ReleaseOneMore<W>(s: Sem<W>, n: nat)
    requires !s.closed
    ensures var (t, ready) := Release(s, n);
            Release(s, n + 1) == if t.waiters != [] then (t.(waiters := t.waiters[1..]), ready + [t.waiters[0]])
                                 else (t.(permits := t.permits + 1), ready)
  {
    var q := s.waiters;
    if n < |q| {
      assert q[n..][1..] == q[n + 1..] && q[..n] + [q[n]] == q[..n + 1];
      assert n == 0 ==> q[..0] == [] && q[0..] == q;
    } else if n == |q| && n > 0 {
      assert q[..n] == q && q[n..] == [];
    }
  }

  /** Every critical section keeps the semaphore consistent. */
  lemma SectionsKeepConsistency<W>(s: Sem<W>, w: W, n: int)
    requires Consistent(s)
    ensures w !in s.waiters ==> Consistent(Acquire(s, w).0)
    ensures Consistent(Release(s, n).0) && Consistent(Close(s).0) && Consistent(Detach(s, w))
    ensures n > 0 && !s.closed ==> Release(s, n).0.permits + |Release(s, n).1| == s.permits + n
    ensures Release(s, n).1 + Release(s, n).0.waiters == s.waiters
  {
    if w in s.waiters {
      var i :| 0 <= i < |s.waiters| && s.waiters[i] == w;
      WithoutAt(s.waiters, i);
      RemovedAt(s.waiters, i);
    } else {
      WithoutAbsent(s.waiters, w);
    }
  }

  // ---------- the object ----------

  class WaiterNode {
    var prev: WaiterNode?
    var next: WaiterNode?
    var queued: bool

    constructor ()
      ensures prev == null && next == null && !queued
    {
      prev, next, queued := null, null, false;
    }
  }

  class AsyncSemaphore {
    var permits: nat
    var closed: bool
    var head: WaiterNode?
    var tail: WaiterNode?
    /** The list the links stand for. */
    ghost var queue: seq<WaiterNode>
    /** The nodes of every operation connected to this semaphore. */
    ghost var nodes: set<WaiterNode>

    ghost function State(): Sem<WaiterNode>
      reads this
    {
      Sem(permits, closed, queue)
    }

    ghost predicate Linked(i: nat)
      requires i < |queue|
      reads this, queue
    {
      && queue[i].prev == (if i == 0 then null else queue[i - 1])
      && queue[i].next == (if i == |queue| - 1 then null else queue[i + 1])
    }

    ghost predicate Valid()
      reads this, queue, nodes
    {
      && Distinct(queue)
      && (forall w :: w in queue ==> w in nodes && w.queued)
      && (forall w :: w in nodes && w !in queue ==> !w.queued && w.prev == null && w.next == null)
      && (forall i {:trigger Linked(i)} :: 0 <= i < |queue| ==> Linked(i))
      && head == (if queue == [] then null else queue[0])
      && tail == (if queue == [] then null else queue[|queue| - 1])
    }

    constructor (permits: int)
      ensures Valid() && nodes == {} && State() == Sem(if permits > 0 then permits else 0, false, [])
    {
      this.permits := if permits > 0 then permits else 0;
      closed, head, tail := false, null, null;
      queue, nodes := [], {};
    }

    /** Connecting an operation brings its own waiter node. */
    method Connect() returns (w: WaiterNode)
      requires Valid()
      modifies this`nodes
      ensures Valid() && fresh(w) && nodes == old(nodes) + {w} && State() == old(State())
    {
      w := new WaiterNode();
      nodes := nodes + {w};
      forall i | 0 <= i < |queue| ensures Linked(i) { assert old(Linked(i)); }
    }

    method EnqueueWaiter(w: WaiterNode)
      requires Valid() && w in nodes && w !in queue
      modifies this`head, this`tail, this`queue, w, tail
      ensures Valid() && queue == old(queue) + [w]
    {
      w.queued := true;
      w.prev := tail;
      w.next := null;
      if tail != null {
        tail.next := w;
      } else {
        head := w;
      }
      tail := w;
      queue := queue + [w];
      forall i | 0 <= i < |queue| ensures Linked(i) {
        if i < |queue| - 1 { assert old(Linked(i)); }
      }
    }

    /** Removes a queued node wherever it stands; does nothing to any other node. */
    method RemoveWaiter(w: WaiterNode)
      requires Valid() && w in nodes
      modifies this`head, this`tail, this`queue, nodes
      ensures Valid() && w !in queue && queue == Without(old(queue), w)
      ensures forall n :: n in nodes && n !in old(queue) ==> unchanged(n)
    {
      if !w.queued {
        WithoutAbsent(queue, w);
        return;
      }
      ghost var i :| 0 <= i < |queue| && queue[i] == w;
      WithoutAt(queue, i);
      RemovedAt(queue, i);
      Unlink(w, i);
    }

    /** The pointer surgery: the neighbours of `w` now point at each other. */
    method Bypass(w: WaiterNode)
      requires w.prev != w && w.next != w && (w.prev == null || w.prev != w.next)
      modifies this`head, this`tail, w, w.prev, w.next
      ensures var p, n := old(w.prev), old(w.next);
              && w.prev == null && w.next == null && !w.queued
              && (p != null ==> p.next == n && p.prev == old(w.prev.prev) && p.queued == old(w.prev.queued))
              && (n != null ==> n.prev == p && n.next == old(w.next.next) && n.queued == old(w.next.queued))
              && head == (if p == null then n else old(head)) && tail == (if n == null then p else old(tail))
    {
      if w.prev != null {
        w.prev.next := w.next;
      } else {
        head := w.next;
      }
      if w.next != null {
        w.next.prev := w.prev;
      } else {
        tail := w.prev;
      }
      w.prev := null;
      w.next := null;
      w.queued := false;
    }

    method Unlink(w: WaiterNode, ghost i: nat)
      requires Valid() && i < |queue| && queue[i] == w
      modifies this`head, this`tail, this`queue, queue
      ensures Valid() && queue == old(queue)[..i] + old(queue)[i + 1..]
    {
      ghost var q := queue;
      assert Linked(i);
      Bypass(w);
      RemovedAt(q, i);
      queue := q[..i] + q[i + 1..];
      forall k | 0 <= k < |queue| ensures Linked(k) {
        var j := if k < i then k else k + 1;
        assert old(Linked(j)) && queue[k] == q[j] && q[j] != w;
      }
    }

    method PopFrontWaiter() returns (w: WaiterNode?)
      requires Valid()
      modifies this`head, this`tail, this`queue, nodes
      ensures Valid()
      ensures old(queue) == [] ==> w == null && queue == []
      ensures old(queue) != [] ==> w == old(queue)[0] && queue == old(queue)[1..]
    {
      w := head;
      if w == null {
        return;
      }
      assert Linked(0) && (|queue| > 1 ==> Linked(1));
      head := w.next;
      if head != null {
        head.prev := null;
      } else {
        tail := null;
      }
      w.prev := null;
      w.next := null;
      w.queued := false;
      queue := queue[1..];
      forall i | 0 <= i < |queue| ensures Linked(i) {
        assert old(Linked(i + 1));
      }
    }

    method AddPermit()
      requires Valid()
      modifies this`permits
      ensures Valid() && permits == old(permits) + 1
    {
      permits := permits + 1;
      forall i | 0 <= i < |queue| ensures Linked(i) { assert old(Linked(i)); }
    }

    /** The locked part of `release`; the returned nodes are completed after unlocking. */
    method ReleasePermits(n: int) returns (ready: seq<WaiterNode>)
      requires Valid()
      modifies this`permits, this`head, this`tail, this`queue, nodes
      ensures Valid() && (State(), ready) == Release(old(State()), n)
    {
      hide Distinct, Linked, Without, Release;
      ghost var s := State();
      ready := [];
      ReleaseNothing(s, n);
      if n <= 0 || closed {
        return;
      }
      var k := n;
      while k > 0
        invariant 0 <= k <= n && Valid() && !closed && nodes == old(nodes)
        invariant (State(), ready) == Release(s, n - k)
      {
        ReleaseOneMore(s, n - k);
        k := k - 1;
        if head != null {
          var w := PopFrontWaiter();
          ready := ready + [w];
        } else {
          AddPermit();
        }
      }
    }

    method MarkClosed()
      requires Valid()
      modifies this`permits, this`closed
      ensures Valid() && closed && permits == 0
    {
      closed := true;
      permits := 0;
      forall i | 0 <= i < |queue| ensures Linked(i) { assert old(Linked(i)); }
    }

    method CloseAll() returns (waiting: seq<WaiterNode>)
      requires Valid()
      modifies this`permits, this`closed, this`head, this`tail, this`queue, nodes
      ensures Valid() && (State(), waiting) == Close(old(State()))
    {
      hide Distinct, Linked, Without;
      waiting := [];
      if closed {
        return;
      }
      MarkClosed();
      while head != null
        invariant Valid() && closed && permits == 0 && nodes == old(nodes)
        invariant waiting + queue == old(queue)
        decreases |queue|
      {
        var w := PopFrontWaiter();
        waiting := waiting + [w];
      }
      assert queue == [] && waiting == old(queue);
    }

    /** The locked part of starting an acquire operation. */
    method AcquireOrEnqueue(w: WaiterNode) returns (v: Verdict)
      requires Valid() && w in nodes && w !in queue
      modifies this`permits, this`head, this`tail, this`queue, w, tail
      ensures Valid() && (State(), v) == Acquire(old(State()), w)
    {
      if closed {
        v := Denied;
      } else if permits > 0 {
        permits := permits - 1;
        v := Granted;
      } else {
        EnqueueWaiter(w);
        v := Queued;
      }
    }
  }
}
