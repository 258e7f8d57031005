/**
  What the container injects, told from the declared members of the types alone,
  and when a new container can build a service.
 */
module MemberGraph {
  import opened Wrappers
  import opened Injection
  import opened InjectionTheorems

  // ---------- what a member asks for ----------

  /** The keyed service if it is bound, the default one otherwise. */
  function Target(bound: set<Node>, ty: TypeId, key: string): Node {
    if key != "" && Node(ty, key) in bound then Node(ty, key) else Node(ty, "")
  }

  /** Pointers are always filled in, shared ones with a shared service and raw ones with
      a reference; an object only if it is an aggregate or its type has a binding. */
  predicate Wants(bound: set<Node>, member: Member, key: string, m: Node, mode: Mode) {
    match member
    case SharedPtr(ty) => mode == Shared && m == Target(bound, ty, key)
    case RawPtr(ty) => mode == Reference && m == Target(bound, ty, key)
    case Object(ty, aggregate, assignable) =>
      mode == Reference && m == Target(bound, ty, key) && assignable && (aggregate || m in bound)
    case Opaque => false
  }

  /** An object that would have to be filled in and cannot be assigned. */
  predicate Blocks(bound: set<Node>, member: Member, key: string, ty: TypeId) {
    member.Object? && member.ty == ty && !member.assignable && (member.aggregate || Target(bound, ty, key) in bound)
  }

  ghost predicate Asked(t: Table, steps: seq<Step>, a: Action) {
    exists i :: 0 <= i < |steps| && Decide(t, steps[i]) == a
  }

  lemma AskedEither(t: Table, x: seq<Step>, y: seq<Step>, a: Action)
    ensures Asked(t, x + y, a) <==> Asked(t, x, a) || Asked(t, y, a)
  {
    hide Decide;
    if Asked(t, x, a) {
      var i :| 0 <= i < |x| && Decide(t, x[i]) == a;
      assert (x + y)[i] == x[i];
    }
    if Asked(t, y, a) {
      var i :| 0 <= i < |y| && Decide(t, y[i]) == a;
      assert (x + y)[|x| + i] == y[i];
    }
  }

  ghost predicate SomeWants(bound: set<Node>, members: seq<Member>, key: string, m: Node, mode: Mode) {
    exists k :: 0 <= k < |members| && Wants(bound, members[k], key, m, mode)
  }

  ghost predicate SomeBlocks(bound: set<Node>, members: seq<Member>, key: string, ty: TypeId) {
    exists k :: 0 <= k < |members| && Blocks(bound, members[k], key, ty)
  }

  lemma OneMember(t: Table, member: Member, key: string, a: Action)
    requires !a.Skip?
    ensures var steps := MemberSteps([member], key);
            Asked(t, steps, a) <==>
                if a.Demand? then Wants(t.Keys, member, key, a.node, a.mode) else Blocks(t.Keys, member, key, a.ty)
  {
    assert [member][1..] == [] && MemberSteps([], key) == [];
    var steps := MemberSteps([member], key);
    if !member.Opaque? {
      assert |steps| == 1 && (Asked(t, steps, a) <==> Decide(t, steps[0]) == a);
    } else {
      assert steps == [];
    }
  }

  lemma StepsSplit(members: seq<Member>, key: string)
    requires members != []
    ensures MemberSteps(members, key) == MemberSteps([members[0]], key) + MemberSteps(members[1..], key)
  {
    assert [members[0]][1..] == [] && MemberSteps([], key) == [];
  }

  lemma SplitMembers(bound: set<Node>, members: seq<Member>, key: string, a: Action)
    requires members != [] && !a.Skip?
    ensures a.Demand? ==> (SomeWants(bound, members, key, a.node, a.mode) <==>
              Wants(bound, members[0], key, a.node, a.mode) || SomeWants(bound, members[1..], key, a.node, a.mode))
    ensures a.Abort? ==> (SomeBlocks(bound, members, key, a.ty) <==>
              Blocks(bound, members[0], key, a.ty) || SomeBlocks(bound, members[1..], key, a.ty))
  {
    hide Wants, Blocks;
    var rest := members[1..];
    forall k | 0 <= k < |rest| ensures rest[k] == members[k + 1] {}
    if a.Demand? && SomeWants(bound, rest, key, a.node, a.mode) {
      var k :| 0 <= k < |rest| && Wants(bound, rest[k], key, a.node, a.mode);
      assert Wants(bound, members[k + 1], key, a.node, a.mode);
    }
    if a.Demand? && SomeWants(bound, members, key, a.node, a.mode) {
      var k :| 0 <= k < |members| && Wants(bound, members[k], key, a.node, a.mode);
      if k > 0 { assert Wants(bound, rest[k - 1], key, a.node, a.mode); }
    }
    if a.Abort? && SomeBlocks(bound, rest, key, a.ty) {
      var k :| 0 <= k < |rest| && Blocks(bound, rest[k], key, a.ty);
      assert Blocks(bound, members[k + 1], key, a.ty);
    }
    if a.Abort? && SomeBlocks(bound, members, key, a.ty) {
      var k :| 0 <= k < |members| && Blocks(bound, members[k], key, a.ty);
      if k > 0 { assert Blocks(bound, rest[k - 1], key, a.ty); }
    }
  }

  /** Injecting an object, with any key and any bindings, asks exactly for what its
      members want, in the mode they want it, and fails exactly at a member that blocks. */
  lemma {:induction false} InjectionFollowsMembers(t: Table, members: seq<Member>, key: string, a: Action)
    requires !a.Skip?
    ensures a.Demand? ==>
      (Asked(t, MemberSteps(members, key), a) <==> SomeWants(t.Keys, members, key, a.node, a.mode))
    ensures a.Abort? ==> (Asked(t, MemberSteps(members, key), a) <==> SomeBlocks(t.Keys, members, key, a.ty))
  {
    if members != [] {
      StepsSplit(members, key);
      OneMember(t, members[0], key, a);
      AskedEither(t, MemberSteps([members[0]], key), MemberSteps(members[1..], key), a);
      SplitMembers(t.Keys, members, key, a);
      hide MemberSteps, Asked, SomeWants, SomeBlocks, Wants, Blocks;
      InjectionFollowsMembers(t, members[1..], key, a);
    }
  }

  /** A factory that makes plain calls asks for exactly the services it names. */
  lemma FactoriesAskForWhatTheyName(c: Catalog, s: Store, n: Node, m: Node, mode: Mode)
    requires n.ty in c.types && forall i :: 0 <= i < |Steps(c, s, n)| ==> Steps(c, s, n)[i].Resolve?
    ensures Needs(c, s, n, m, mode) <==> Resolve(m, mode) in Steps(c, s, n)
  {
    var steps := Steps(c, s, n);
    if Resolve(m, mode) in steps {
      var i :| 0 <= i < |steps| && steps[i] == Resolve(m, mode);
      assert Decide(s.table, steps[i]) == Demand(m, mode);
    }
    if Needs(c, s, n, m, mode) {
      var i :| 0 <= i < |steps| && Decide(s.table, steps[i]) == Demand(m, mode);
      assert steps[i].Resolve? && steps[i] == Resolve(m, mode);
    }
  }

  // ---------- services nobody registered ----------

  /** The members of a type that is built by default construction and injection. */
  function Injected(info: TypeInfo): seq<Member> {
    if info.defaultConstructible && info.injectable then info.members else []
  }

  ghost predicate MemberNeeds(c: Catalog, bound: set<Node>, n: Node, m: Node, mode: Mode)
    requires n.ty in c.types
  {
    SomeWants(bound, Injected(c.types[n.ty]), "", m, mode)
  }

  /** The edges of an unregistered service are what its members want. */
  lemma UnregisteredFollowsMembers(c: Catalog, s: Store, n: Node, m: Node, mode: Mode)
    requires n.ty in c.types && n !in s.table
    ensures Needs(c, s, n, m, mode) <==> MemberNeeds(c, s.table.Keys, n, m, mode)
  {
    var info := c.types[n.ty];
    var steps := Steps(c, s, n);
    InjectionFollowsMembers(s.table, info.members, "", Demand(m, mode));
    assert Needs(c, s, n, m, mode) <==> Asked(s.table, steps, Demand(m, mode));
    if !(info.defaultConstructible && info.injectable) { assert steps == []; }
  }

  lemma UnregisteredBlocks(c: Catalog, s: Store, n: Node, ty: TypeId)
    requires n.ty in c.types && n !in s.table
    ensures Asked(s.table, Steps(c, s, n), Abort(ty)) <==> SomeBlocks(s.table.Keys, Injected(c.types[n.ty]), "", ty)
  {
    var info := c.types[n.ty];
    InjectionFollowsMembers(s.table, info.members, "", Abort(ty));
    if !(info.defaultConstructible && info.injectable) { assert Steps(c, s, n) == []; }
  }

  // ---------- new containers ----------

  const EMPTY: Store := Store(map[], 0)

  ghost predicate MemberEdge(c: Catalog, a: Node, b: Node)
    requires a.ty in c.types
  {
    MemberNeeds(c, {}, a, b, Shared) || MemberNeeds(c, {}, a, b, Reference)
  }

  ghost predicate MemberWalk(c: Catalog, p: seq<Node>)
    requires ClosedCatalog(c)
  {
    && |p| > 0
    && (forall i :: 0 <= i < |p| ==> p[i] in c.nodes)
    && (forall i :: 0 <= i < |p| - 1 ==> MemberEdge(c, p[i], p[i + 1]))
  }

  ghost predicate MemberCycle(c: Catalog, n: Node)
    requires ClosedCatalog(c)
  {
    exists p :: MemberWalk(c, p) && p[0] == n && Last(p) in p[..|p| - 1]
  }

  /** A type that cannot be built whatever its dependencies are. */
  ghost predicate Unbuildable(c: Catalog, n: Node)
    requires n.ty in c.types
  {
    || !c.types[n.ty].defaultConstructible
    || exists ty :: SomeBlocks({}, Injected(c.types[n.ty]), "", ty)
  }

  ghost predicate MemberHopeless(c: Catalog, n: Node)
    requires ClosedCatalog(c)
  {
    MemberCycle(c, n) || exists p :: MemberWalk(c, p) && p[0] == n && Unbuildable(c, Last(p))
  }

  /** Members of class type that are no aggregates have types that are no services, such as strings. */
  ghost predicate PlainObjects(c: Catalog, n: Node)
    requires n.ty in c.types
  {
    forall m :: m in Injected(c.types[n.ty]) && m.Object? && !m.aggregate ==> Node(m.ty, "") !in c.nodes
  }

  lemma EmptyIsClosed(c: Catalog)
    requires ClosedCatalog(c)
    ensures Closed(c, EMPTY.table)
  {}

  lemma WalksAreMemberWalks(c: Catalog, p: seq<Node>)
    requires ClosedCatalog(c) && Closed(c, EMPTY.table)
    ensures Walk(c, EMPTY, p) <==> MemberWalk(c, p)
  {
    forall i | 0 <= i < |p| - 1 && p[i] in c.nodes
        ensures Edge(c, EMPTY, p[i], p[i + 1]) <==> MemberEdge(c, p[i], p[i + 1]) {
      UnregisteredFollowsMembers(c, EMPTY, p[i], p[i + 1], Shared);
      UnregisteredFollowsMembers(c, EMPTY, p[i], p[i + 1], Reference);
      assert EMPTY.table.Keys == {};
    }
    hide Edge, MemberEdge;
    if Walk(c, EMPTY, p) {
      forall i | 0 <= i < |p| - 1 ensures MemberEdge(c, p[i], p[i + 1]) { assert Edge(c, EMPTY, p[i], p[i + 1]); }
    }
    if MemberWalk(c, p) {
      forall i | 0 <= i < |p| - 1 ensures Edge(c, EMPTY, p[i], p[i + 1]) { assert MemberEdge(c, p[i], p[i + 1]); }
    }
  }

  /** What can go wrong at the end of a walk of a new container. */
  lemma EndsOfWalks(c: Catalog, p: seq<Node>, e: Error)
    requires ClosedCatalog(c) && Closed(c, EMPTY.table) && Walk(c, EMPTY, p)
    ensures Exhibits(c, EMPTY, p, e) ==> Last(p) in p[..|p| - 1] || Unbuildable(c, Last(p))
  {
    var n := Last(p);
    assert n in c.nodes && n !in EMPTY.table && EMPTY.table.Keys == {};
    if Exhibits(c, EMPTY, p, e) && e.Unassignable? {
      UnregisteredBlocks(c, EMPTY, n, e.ty);
      assert Asked(EMPTY.table, Steps(c, EMPTY, n), Abort(e.ty));
    }
    hide Walk, Needs;
  }

  lemma UnbuildableShows(c: Catalog, p: seq<Node>) returns (e: Error)
    requires ClosedCatalog(c) && Closed(c, EMPTY.table) && Walk(c, EMPTY, p) && Unbuildable(c, Last(p))
    ensures Exhibits(c, EMPTY, p, e)
  {
    var n := Last(p);
    assert n in c.nodes && EMPTY.table.Keys == {};
    if !c.types[n.ty].defaultConstructible {
      e := FactoryThrew(n);
    } else {
      var ty :| SomeBlocks({}, Injected(c.types[n.ty]), "", ty);
      e := Unassignable(ty);
      UnregisteredBlocks(c, EMPTY, n, ty);
      assert Asked(EMPTY.table, Steps(c, EMPTY, n), Abort(ty));
    }
    hide Walk;
  }

  lemma HopelessByMembers(c: Catalog, n: Node)
    requires ClosedCatalog(c) && Closed(c, EMPTY.table)
    ensures Hopeless(c, EMPTY, n) <==> MemberHopeless(c, n)
  {
    forall p ensures Walk(c, EMPTY, p) <==> MemberWalk(c, p) { WalksAreMemberWalks(c, p); }
    hide MemberWalk, Walk, Unbuildable;
    if Hopeless(c, EMPTY, n) {
      var p, e :| Exhibits(c, EMPTY, p, e) && p[0] == n;
      EndsOfWalks(c, p, e);
    }
    if MemberCycle(c, n) {
      var p :| MemberWalk(c, p) && p[0] == n && Last(p) in p[..|p| - 1];
      assert Exhibits(c, EMPTY, p, Cyclic(Last(p)));
    } else if MemberHopeless(c, n) {
      var p :| MemberWalk(c, p) && p[0] == n && Unbuildable(c, Last(p));
      var e := UnbuildableShows(c, p);
    }
  }

  lemma {:induction false} ProbesOfMembers(members: seq<Member>, i: nat, p: Node)
    requires i < |MemberSteps(members, "")| && p in Probes(MemberSteps(members, "")[i])
    ensures exists m :: m in members && m.Object? && !m.aggregate && p == Node(m.ty, "")
  {
    var first := MemberSteps([members[0]], "");
    StepsSplit(members, "");
    if i < |first| {
      assert MemberSteps(members, "")[i] == first[i];
      assert [members[0]][1..] == [] && MemberSteps([], "") == [];
      assert members[0] in members && members[0].Object?;
    } else {
      ProbesOfMembers(members[1..], i - |first|, p);
    }
  }

  lemma PlainIsSettledEmpty(c: Catalog, n: Node)
    requires n.ty in c.types && PlainObjects(c, n)
    ensures SettledAt(c, EMPTY, n)
  {
    forall i, p | 0 <= i < |Steps(c, EMPTY, n)| && p in Probes(Steps(c, EMPTY, n)[i]) ensures p !in c.nodes {
      ProbesOfMembers(c.types[n.ty].members, i, p);
    }
  }

  /** Exactly when a new container can build a service, in either mode, told from the
      members alone: no chain of members leads into a cycle or to a type that cannot be
      built.  Members whose types are no services do not matter. */
  lemma NewContainersAreExact(c: Catalog, n: Node, mode: Mode)
    requires ClosedCatalog(c) && n in c.nodes
    requires forall p :: MemberWalk(c, p) && p[0] == n ==> PlainObjects(c, Last(p))
    ensures Closed(c, EMPTY.table) && (Request(c, EMPTY, {}, n, mode).Ok? <==> !MemberHopeless(c, n))
  {
    EmptyIsClosed(c);
    forall m | m in c.nodes && Reachable(c, EMPTY, n, m) ensures SettledAt(c, EMPTY, m) {
      var p :| Walk(c, EMPTY, p) && p[0] == n && Last(p) == m;
      WalksAreMemberWalks(c, p);
      PlainIsSettledEmpty(c, m);
    }
    HopelessByMembers(c, n);
    assert Effective(c, EMPTY, n).lifetime == Singleton;
    hide SettledAt, Request, Hopeless, MemberHopeless, Effective, Reachable;
    ResolutionIsExact(c, EMPTY, n, mode);
  }

  /** In particular, if every type can be built, a service resolves exactly when its
      members, shared and raw pointers and aggregates alike, do not lead into a cycle. */
  lemma NewContainersDetectCycles(c: Catalog, n: Node, mode: Mode)
    requires ClosedCatalog(c) && n in c.nodes && forall m :: m in c.nodes ==> PlainObjects(c, m) && !Unbuildable(c, m)
    ensures Closed(c, EMPTY.table) && (Request(c, EMPTY, {}, n, mode).Ok? <==> !MemberCycle(c, n))
  {
    NewContainersAreExact(c, n, mode);
    hide Request, PlainObjects, Unbuildable, MemberCycle;
  }
}
