/**
  The container object: registration, the in-progress guard and the recursive
  resolver with its side effects, proved against `Injection`; and what any
  history of resolutions keeps.
 */
module DiContainer {
  import opened Wrappers
  import opened Injection
  import opened InjectionTheorems

  // ---------- invariants of the binding tables ----------

  ghost predicate GoodBinding(b: Binding, next: Instance) {
    && (b.lifetime == Transient ==> b.cached.None?)
    && (b.lifetime == Singleton ==> b.made <= 1 && (b.cached.None? ==> b.made == 0))
    && (b.cached.Some? ==> b.cached.value < next)
  }

  ghost predicate GoodStore(s: Store) {
    forall n :: n in s.table ==> GoodBinding(s.table[n], s.next)
  }

  /** A resolution below `path` keeps the store good and leaves the unfinished nodes alone. */
  ghost predicate Kept(path: set<Node>, s: Store, t: Store) {
    && GoodStore(t)
    && s.next <= t.next
    && (forall n :: n in path && n in s.table ==> n in t.table && t.table[n] == s.table[n])
  }

  /** The answer `i` for `n`: the cached instance, or one that no binding holds. */
  ghost predicate Delivers(s: Store, t: Store, n: Node, i: Instance) {
    && n in t.table
    && (t.table[n].lifetime == Singleton ==> t.table[n].cached == Some(i))
    && (t.table[n].lifetime == Transient ==>
          s.next <= i < t.next && forall m :: m in t.table ==> t.table[m].cached != Some(i))
  }

  lemma BindKept(c: Catalog, s: Store, path: set<Node>, n: Node)
    requires Closed(c, s.table) && n in c.nodes && GoodStore(s)
    ensures Kept(path, s, Bind(c, s, n))
  {}

  lemma KeptTransitive(path: set<Node>, s: Store, t: Store, u: Store)
    requires Kept(path, s, t) && Kept(path, t, u)
    ensures Kept(path, s, u)
  {}

  lemma FinishKept(s: Store, t: Store, path: set<Node>, n: Node)
    requires n in s.table && n !in path && Kept(path + {n}, s, t) && n in t.table
    requires s.table[n].lifetime == Singleton ==> s.table[n].cached.None?
    requires GoodStore(s)
    ensures Kept(path, s, Finish(t, n)) && Delivers(s, Finish(t, n), n, t.next)
  {
    var u := Finish(t, n);
    assert t.table[n] == s.table[n] && GoodBinding(t.table[n], t.next);
    forall m | m in u.table ensures GoodBinding(u.table[m], u.next) {
      assert m in t.table && GoodBinding(t.table[m], t.next);
    }
    if u.table[n].lifetime == Transient {
      forall m | m in u.table ensures u.table[m].cached != Some(t.next) {
        assert GoodBinding(t.table[m], t.next) && u.table[m].cached == t.table[m].cached;
      }
    }
  }

  lemma {:induction false} SharedKept(c: Catalog, s: Store, path: set<Node>, n: Node)
    requires Closed(c, s.table) && n in c.nodes && GoodStore(s)
    ensures Kept(path, s, ResolveShared(c, s, path, n).store)
    ensures ResolveShared(c, s, path, n).Ok? ==>
              Delivers(s, ResolveShared(c, s, path, n).store, n, ResolveShared(c, s, path, n).instance)
    decreases c.nodes - path, 0, 0
  {
    BindKept(c, s, path, n);
    BindGrown(c, s, n);
    var s1 := Bind(c, s, n);
    var b := s1.table[n];
    if !(b.lifetime == Singleton && b.cached.Some?) && n !in path {
      StepsKept(c, s1, path + {n}, b.recipe.steps);
      var r := RunSteps(c, s1, path + {n}, b.recipe.steps);
      FactoryKept(s, s1, r.store, path, n);
      if r.Done? && b.recipe.ending == Produces {
        assert ResolveShared(c, s, path, n) == Ok(r.store.next, Finish(r.store, n));
      } else {
        assert ResolveShared(c, s, path, n).Fail? && ResolveShared(c, s, path, n).store == r.store;
      }
    }
  }

  lemma FactoryKept(s: Store, s1: Store, t: Store, path: set<Node>, n: Node)
    requires GoodStore(s) && Kept(path, s, s1) && n in s1.table && n !in path && Kept(path + {n}, s1, t) && n in t.table
    requires s1.table[n].lifetime == Singleton ==> s1.table[n].cached.None?
    ensures Kept(path, s, t) && Kept(path, s, Finish(t, n)) && Delivers(s, Finish(t, n), n, t.next)
  {
    KeptNarrow(path, n, s1, t);
    KeptTransitive(path, s, s1, t);
    FinishKept(s1, t, path, n);
    KeptTransitive(path, s, s1, Finish(t, n));
  }

  lemma KeptNarrow(path: set<Node>, n: Node, s: Store, t: Store)
    requires Kept(path + {n}, s, t)
    ensures Kept(path, s, t)
  {
    forall m | m in path && m in s.table ensures m in t.table && t.table[m] == s.table[m] {
      assert m in path + {n};
    }
  }

  lemma {:induction false} RequestKept(c: Catalog, s: Store, path: set<Node>, n: Node, mode: Mode)
    requires Closed(c, s.table) && n in c.nodes && GoodStore(s)
    ensures Kept(path, s, Request(c, s, path, n, mode).store)
    ensures Request(c, s, path, n, mode).Ok? ==>
              Delivers(s, Request(c, s, path, n, mode).store, n, Request(c, s, path, n, mode).instance)
    decreases c.nodes - path, 2, 0
  {
    if mode == Shared {
      SharedKept(c, s, path, n);
    } else {
      BindKept(c, s, path, n);
      BindGrown(c, s, n);
      SharedKept(c, Bind(c, s, n), path, n);
    }
  }

  lemma {:induction false} StepsKept(c: Catalog, s: Store, path: set<Node>, steps: seq<Step>)
    requires Closed(c, s.table) && ClosedRecipe(c, Recipe(steps, Produces)) && GoodStore(s)
    ensures Kept(path, s, RunSteps(c, s, path, steps).store)
    decreases c.nodes - path, 3, |steps|
  {
    if steps != [] {
      var a := Decide(s.table, steps[0]);
      if a.Demand? {
        RequestKept(c, s, path, a.node, a.mode);
      }
      var r := RunStep(c, s, path, steps[0]);
      if r.Done? {
        StepsKept(c, r.store, path, steps[1..]);
      }
    }
  }

  // ---------- histories ----------

  /** Over any history of resolutions, every singleton factory has completed at most once. */
  lemma {:induction false} FactoriesCompleteAtMostOnce(c: Catalog, s: Store, calls: seq<Call>)
    requires Closed(c, s.table) && GoodStore(s)
    requires forall i :: 0 <= i < |calls| ==> calls[i].node in c.nodes
    ensures GoodStore(Run(c, s, calls)) && s.next <= Run(c, s, calls).next
    ensures forall n :: n in Run(c, s, calls).table && Run(c, s, calls).table[n].lifetime == Singleton ==>
              Run(c, s, calls).table[n].made <= 1
    decreases |calls|
  {
    if calls != [] {
      RequestKept(c, s, {}, calls[0].node, calls[0].mode);
      FactoriesCompleteAtMostOnce(c, Request(c, s, {}, calls[0].node, calls[0].mode).store, calls[1..]);
    }
  }

  /** Once a singleton was resolved, every later request for it, in either mode,
      after any history, returns that instance and changes nothing. */
  lemma SingletonsKeepTheirInstance(c: Catalog, s: Store, n: Node, mode: Mode, calls: seq<Call>, mode': Mode)
    requires Closed(c, s.table) && GoodStore(s) && n in c.nodes
    requires forall i :: 0 <= i < |calls| ==> calls[i].node in c.nodes
    requires Request(c, s, {}, n, mode).Ok? && Effective(c, s, n).lifetime == Singleton
    ensures var r := Request(c, s, {}, n, mode);
            var later := Run(c, r.store, calls);
            Request(c, later, {}, n, mode') == Ok(r.instance, later)
  {
    RequestKept(c, s, {}, n, mode);
    var r := Request(c, s, {}, n, mode);
    assert r.store.table[n].lifetime == Singleton;
    var later := Run(c, r.store, calls);
    assert later.table[n].cached == Some(r.instance) && later.table[n].lifetime == Singleton;
  }

  /** A service nobody registered is made once: whatever was returned first is what
      every later request returns, in either mode, after any history. */
  lemma UnregisteredServicesAreShared(c: Catalog, s: Store, n: Node, mode: Mode, calls: seq<Call>, mode': Mode)
    requires Closed(c, s.table) && GoodStore(s) && n in c.nodes && n !in s.table
    requires forall i :: 0 <= i < |calls| ==> calls[i].node in c.nodes
    ensures var r := Request(c, s, {}, n, mode);
            r.Ok? ==> Request(c, Run(c, r.store, calls), {}, n, mode') == Ok(r.instance, Run(c, r.store, calls))
  {
    if Request(c, s, {}, n, mode).Ok? {
      SingletonsKeepTheirInstance(c, s, n, mode, calls, mode');
    }
  }

  /** A transient service is a new instance every time: none that any binding
      holds, and none that any earlier resolution returned. */
  lemma TransientsAreFresh(c: Catalog, s: Store, n: Node, calls: seq<Call>)
    requires Closed(c, s.table) && GoodStore(s) && n in c.nodes && n in s.table && s.table[n].lifetime == Transient
    requires forall i :: 0 <= i < |calls| ==> calls[i].node in c.nodes
    ensures var first := ResolveShared(c, s, {}, n);
            var second := ResolveShared(c, Run(c, first.store, calls), {}, n);
            first.Ok? && second.Ok? ==>
              && first.instance < second.instance
              && (forall m :: m in second.store.table ==> second.store.table[m].cached != Some(second.instance))
  {
    SharedKept(c, s, {}, n);
    var first := ResolveShared(c, s, {}, n);
    FactoriesCompleteAtMostOnce(c, first.store, calls);
    SharedKept(c, Run(c, first.store, calls), {}, n);
  }

  // ---------- why `Settled` is needed ----------

  function QuirkCatalog(): Catalog {
    Catalog({Node("Host", ""), Node("Part", "")},
            map["Host" := TypeInfo(true, true, [Object("Part", false, true)]), "Part" := TypeInfo(false, false, [])])
  }

  /** A member of class type is injected only when its type has a binding at that
      moment, and a failed resolution leaves an auto-binding behind.  So one failed
      request can turn a service that resolves into one that does not. */
  lemma FailedRequestCanBreakAnother()
    ensures var c := QuirkCatalog();
            var s := Store(map[], 0);
            && Closed(c, s.table)
            && ResolveShared(c, s, {}, Node("Host", "")).Ok?
            && ResolveShared(c, s, {}, Node("Part", "")).Fail?
            && ResolveShared(c, Run(c, s, [Call(Node("Part", ""), Shared)]), {}, Node("Host", "")).Fail?
  {
    var c := QuirkCatalog();
    var s := Store(map[], 0);
    var part := Node("Part", "");
    QuirkRecipes();
    QuirkPart(s, {});
    QuirkHost(s);
    hide ResolveShared, RunSteps, AutoRecipe;
    var t := ResolveShared(c, s, {}, part).store;
    RequestUnfold(c, s, {}, part, Shared);
    assert Run(c, s, [Call(part, Shared)]) == t;
    QuirkHost(t);
  }

  lemma QuirkRecipes()
    ensures ClosedCatalog(QuirkCatalog())
    ensures AutoRecipe(QuirkCatalog().types["Host"]) == Recipe([Value("Part", "", false, true)], Produces)
    ensures AutoRecipe(QuirkCatalog().types["Part"]) == Recipe([], Throws)
  {
    assert MemberSteps([Object("Part", false, true)], "") == [Value("Part", "", false, true)];
  }

  lemma QuirkPart(s: Store, path: set<Node>)
    requires Closed(QuirkCatalog(), s.table) && Node("Part", "") !in path
    requires Node("Part", "") in s.table ==> s.table[Node("Part", "")] == AutoBinding(QuirkCatalog(), Node("Part", ""))
    ensures ResolveShared(QuirkCatalog(), s, path, Node("Part", "")) ==
            Fail(FactoryThrew(Node("Part", "")), Bind(QuirkCatalog(), s, Node("Part", "")))
  {
    QuirkRecipes();
  }

  /** Whether `Host` resolves is decided by whether `Part` happens to be bound. */
  lemma QuirkHost(s: Store)
    requires Closed(QuirkCatalog(), s.table) && Node("Host", "") !in s.table
    requires Node("Part", "") in s.table ==> s.table[Node("Part", "")] == AutoBinding(QuirkCatalog(), Node("Part", ""))
    ensures ResolveShared(QuirkCatalog(), s, {}, Node("Host", "")).Ok? <==> Node("Part", "") !in s.table
  {
    var c := QuirkCatalog();
    var host, step := Node("Host", ""), Value("Part", "", false, true);
    QuirkRecipes();
    var s1 := Bind(c, s, host);
    assert Closed(c, s1.table);
    QuirkPart(s1, {host});
    if Node("Part", "") in s.table {
      assert ResolveRef(c, s1, {host}, Node("Part", "")).Fail?;
      assert Request(c, s1, {host}, Node("Part", ""), Reference).Fail?;
      assert Decide(s1.table, step) == Demand(Node("Part", ""), Reference);
    } else {
      assert Decide(s1.table, step) == Skip;
    }
    assert RunStep(c, s1, {host}, step).Done? <==> Node("Part", "") !in s.table;
    var r := RunStep(c, s1, {host}, step);
    assert [step][1..] == [] && RunSteps(c, r.store, {host}, []) == Done(r.store);
    assert RunSteps(c, s1, {host}, [step]) == r;
    assert {} + {host} == {host};
  }

  /** The other way round: a factory that injects with key "k" falls back to the
      default service while the keyed one has no binding.  Here the default service
      throws, so the host fails until somebody has asked for the keyed one. */
  function RepairCatalog(): Catalog {
    Catalog({Node("Host", ""), Node("Part", ""), Node("Part", "k")},
            map["Host" := TypeInfo(true, false, []), "Part" := TypeInfo(true, false, [])])
  }

  function RepairStore(): Store {
    Store(map[Node("Host", "") := Binding(Singleton, Recipe([Pointer("Part", "k", Shared)], Produces), None, 0),
              Node("Part", "") := Binding(Singleton, Recipe([], Throws), None, 0)], 0)
  }

  lemma RequestCanRepairAnother()
    ensures var c, s := RepairCatalog(), RepairStore();
            && Closed(c, s.table)
            && ResolveShared(c, s, {}, Node("Host", "")).Fail?
            && ResolveShared(c, s, {}, Node("Part", "k")).Ok?
            && ResolveShared(c, Run(c, s, [Call(Node("Part", "k"), Shared)]), {}, Node("Host", "")).Ok?
  {
    var c, s, host, keyed := RepairCatalog(), RepairStore(), Node("Host", ""), Node("Part", "k");
    assert FallsBack(c, s, host, "Part", "k");
    assert keyed in c.nodes && keyed !in s.table && AutoRecipe(c.types["Part"]) == Recipe([], Produces);
    hide RepairCatalog, RepairStore, AutoRecipe;
    FallbackHost(c, s, host, "Part", "k");
    AutoBuilt(c, s, keyed);
    var r := ResolveShared(c, s, {}, keyed);
    RequestUnfold(c, s, {}, keyed, Shared);
    hide ResolveShared, Request;
    assert [Call(keyed, Shared)][1..] == [] && Run(c, r.store, []) == r.store;
    assert Run(c, s, [Call(keyed, Shared)]) == r.store;
    FallbackHost(c, r.store, host, "Part", "k");
  }

  /** A service without dependencies is built and nothing else changes. */
  lemma AutoBuilt(c: Catalog, s: Store, n: Node)
    requires Closed(c, s.table) && n in c.nodes && n !in s.table && AutoBinding(c, n).recipe == Recipe([], Produces)
    ensures var r := ResolveShared(c, s, {}, n);
            && r.Ok? && IsLeaf(r.store, n)
            && forall m :: m in s.table ==> m in r.store.table && r.store.table[m] == s.table[m]
  {
    SharedUnfold(c, s, {}, n);
    var s1 := Bind(c, s, n);
    assert RunSteps(c, s1, {} + {n}, []) == Done(s1);
    hide ResolveShared, RunSteps, Closed;
  }

  /** The factory of `host` prefers the service of that key; the default one throws. */
  ghost predicate FallsBack(c: Catalog, s: Store, host: Node, ty: TypeId, key: string) {
    && Closed(c, s.table) && key != "" && host != Node(ty, "")
    && host in s.table && s.table[host] == Binding(Singleton, Recipe([Pointer(ty, key, Shared)], Produces), None, 0)
    && Node(ty, "") in s.table && s.table[Node(ty, "")] == Binding(Singleton, Recipe([], Throws), None, 0)
    && (Node(ty, key) in s.table ==> IsLeaf(s, Node(ty, key)))
  }

  lemma FallbackPart(c: Catalog, s: Store, host: Node, ty: TypeId, key: string)
    requires FallsBack(c, s, host, ty, key)
    ensures Preferred(s.table, ty, key) in c.nodes
    ensures ResolveShared(c, s, {host}, Preferred(s.table, ty, key)).Ok? <==> Node(ty, key) in s.table
  {
    var m := Preferred(s.table, ty, key);
    SharedUnfold(c, s, {host}, m);
    assert RunSteps(c, s, {host} + {m}, []) == Done(s);
    hide ResolveShared, RunSteps;
  }

  lemma FallbackStep(c: Catalog, s: Store, host: Node, ty: TypeId, key: string)
    requires FallsBack(c, s, host, ty, key)
    ensures ClosedRecipe(c, Recipe([Pointer(ty, key, Shared)], Produces))
    ensures RunSteps(c, s, {host}, [Pointer(ty, key, Shared)]).Done? <==> Node(ty, key) in s.table
  {
    var step := Pointer(ty, key, Shared);
    assert ClosedRecipe(c, s.table[host].recipe);
    FallbackPart(c, s, host, ty, key);
    RequestUnfold(c, s, {host}, Preferred(s.table, ty, key), Shared);
    var r := RunStep(c, s, {host}, step);
    assert [step][1..] == [] && RunSteps(c, r.store, {host}, []) == Done(r.store);
    StepsUnfold(c, s, {host}, [step]);
    hide ResolveShared, Request, RunSteps;
  }

  /** Whether the host resolves is decided by whether the keyed service is there. */
  lemma FallbackHost(c: Catalog, s: Store, host: Node, ty: TypeId, key: string)
    requires FallsBack(c, s, host, ty, key)
    ensures host in c.nodes && (ResolveShared(c, s, {}, host).Ok? <==> Node(ty, key) in s.table)
  {
    SharedUnfold(c, s, {}, host);
    FallbackStep(c, s, host, ty, key);
    assert {} + {host} == {host};
    hide ResolveShared, RunSteps;
  }

  // ---------- the object ----------

  class Container {
    const catalog: Catalog
    var bindings: Table
    var resolving: set<Node>
    var next: Instance

    ghost predicate Valid()
      reads this
    {
      Closed(catalog, bindings) && GoodStore(Contents())
    }

    ghost function Contents(): Store
      reads this
    {
      Store(bindings, next)
    }

    constructor (catalog: Catalog)
      requires ClosedCatalog(catalog)
      ensures Valid() && this.catalog == catalog && bindings == map[] && resolving == {}
    {
      this.catalog := catalog;
      bindings, resolving, next := map[], {}, 0;
    }

    /** Registers an existing object, at any time; a null pointer is refused. */
    method RegisterInstance(n: Node, instance: Option<Instance>) returns (ok: bool)
      requires Valid() && n in catalog.nodes
      modifies this`bindings, this`next
      ensures Valid() && ok == instance.Some?
      ensures Contents() == if ok then WithInstance(old(Contents()), n, instance.value) else old(Contents())
    {
      ok := instance.Some?;
      if ok {
        bindings := bindings[n := Binding(Singleton, Recipe([], Throws), instance, 0)];
        next := if instance.value < next then next else instance.value + 1;
      }
    }

    method RegisterFactory(n: Node, lifetime: Lifetime, recipe: Recipe)
      requires Valid() && n in catalog.nodes && ClosedRecipe(catalog, recipe)
      modifies this`bindings
      ensures Valid() && bindings == old(bindings)[n := Binding(lifetime, recipe, None, 0)]
    {
      bindings := bindings[n := Binding(lifetime, recipe, None, 0)];
    }

    /** `Some` is the returned instance, `None` a thrown error.  On every exit the
        set of unfinished nodes is what it was on entry. */
    method ResolveSharedImpl(n: Node) returns (r: Option<Instance>, error: Option<Error>)
      requires Valid() && n in catalog.nodes
      modifies this
      ensures Valid() && resolving == old(resolving)
      ensures Contents() == ResolveShared(catalog, old(Contents()), old(resolving), n).store
      ensures match ResolveShared(catalog, old(Contents()), old(resolving), n)
              case Ok(i, _) => r == Some(i) && error == None
              case Fail(e, _) => r == None && error == Some(e)
      decreases catalog.nodes - resolving, 0, 0
    {
      SharedKept(catalog, Contents(), resolving, n);
      SharedUnfold(catalog, Contents(), resolving, n);
      assert Closed(catalog, ResolveShared(catalog, Contents(), resolving, n).store.table);
      hide ResolveShared, RunSteps, Bind, Finish, Closed, ClosedRecipe, Grown, Delivers, GoodBinding;
      EnsureBound(n);
      var b := bindings[n];
      if b.lifetime == Singleton && b.cached.Some? {
        return b.cached, None;
      }
      if n in resolving {
        return None, Some(Cyclic(n));
      }
      resolving := resolving + {n};
      error := RunFactory(b.recipe.steps);
      resolving := resolving - {n};
      assert resolving == old(resolving);
      if error.Some? {
        return None, error;
      }
      match b.recipe.ending {
        case Throws => return None, Some(FactoryThrew(n));
        case ReturnsNull => return None, Some(NullProduct(n));
        case Produces => r := Commit(n);
      }
    }

    /** Caches the created object of a singleton and hands it out. */
    method Commit(n: Node) returns (r: Option<Instance>)
      requires n in bindings
      modifies this`bindings, this`next
      ensures Contents() == Finish(old(Contents()), n) && r == Some(old(next))
    {
      r := Some(next);
      var b := bindings[n];
      var b' := if b.lifetime == Singleton then b.(cached := r) else b;
      bindings, next := bindings[n := b'.(made := b.made + 1)], next + 1;
    }

    method ResolveRefImpl(n: Node) returns (r: Option<Instance>, error: Option<Error>)
      requires Valid() && n in catalog.nodes
      modifies this
      ensures Valid() && resolving == old(resolving)
      ensures Contents() == ResolveRef(catalog, old(Contents()), old(resolving), n).store
      ensures match ResolveRef(catalog, old(Contents()), old(resolving), n)
              case Ok(i, _) => r == Some(i) && error == None
              case Fail(e, _) => r == None && error == Some(e)
      decreases catalog.nodes - resolving, 1, 0
    {
      EnsureBound(n);
      SharedKept(catalog, Contents(), resolving, n);
      if bindings[n].lifetime == Transient {
        return None, Some(TransientReference(n));
      }
      if bindings[n].cached.None? {
        r, error := ResolveSharedImpl(n);
        if error.Some? {
          return None, error;
        }
      }
      r, error := bindings[n].cached, None;
    }

    method EnsureBound(n: Node)
      requires Valid() && n in catalog.nodes
      modifies this`bindings
      ensures Valid() && Contents() == Bind(catalog, old(Contents()), n)
    {
      BindGrown(catalog, Contents(), n);
      if n !in bindings {
        bindings := bindings[n := AutoBinding(catalog, n)];
      }
    }

    lemma StepsUnfold(s: Store, path: set<Node>, steps: seq<Step>)
      requires Closed(catalog, s.table) && ClosedRecipe(catalog, Recipe(steps, Produces))
      ensures steps == [] ==> RunSteps(catalog, s, path, steps) == Done(s)
      ensures steps != [] ==> ClosedRecipe(catalog, Recipe(steps[1..], Produces))
      ensures steps != [] && Decide(s.table, steps[0]).Skip? ==>
                RunSteps(catalog, s, path, steps) == RunSteps(catalog, s, path, steps[1..])
      ensures steps != [] && Decide(s.table, steps[0]).Abort? ==>
                RunSteps(catalog, s, path, steps) == Stuck(Unassignable(Decide(s.table, steps[0]).ty), s)
      ensures steps != [] && Decide(s.table, steps[0]).Demand? ==>
                var a := Decide(s.table, steps[0]);
                && a.node in catalog.nodes
                && var r := Request(catalog, s, path, a.node, a.mode);
                   RunSteps(catalog, s, path, steps) ==
                     if r.Fail? then Stuck(r.error, r.store) else RunSteps(catalog, r.store, path, steps[1..])
    {}

    /** The calls of one factory, or of one injection, in order; stops at the first error. */
    method RunFactory(steps: seq<Step>) returns (error: Option<Error>)
      requires Valid() && ClosedRecipe(catalog, Recipe(steps, Produces))
      modifies this
      ensures Valid() && resolving == old(resolving)
      ensures match RunSteps(catalog, old(Contents()), old(resolving), steps)
              case Done(s) => error == None && Contents() == s
              case Stuck(e, s) => error == Some(e) && Contents() == s
      decreases catalog.nodes - resolving, 3, |steps|
    {
      hide RunSteps, RunStep, ResolveShared, ResolveRef, ClosedRecipe, Decide, GoodBinding, Grown;
      error := None;
      var i := 0;
      assert steps[0..] == steps;
      while i < |steps|
        invariant 0 <= i <= |steps| && error == None
        invariant Valid() && resolving == old(resolving) && ClosedRecipe(catalog, Recipe(steps[i..], Produces))
        invariant RunSteps(catalog, old(Contents()), old(resolving), steps)
               == RunSteps(catalog, Contents(), resolving, steps[i..])
      {
        StepsUnfold(Contents(), resolving, steps[i..]);
        assert steps[i..][0] == steps[i] && steps[i..][1..] == steps[i + 1..];
        match Decide(bindings, steps[i]) {
          case Skip =>
          case Abort(ty) => return Some(Unassignable(ty));
          case Demand(m, mode) =>
            var r;
            if mode == Shared {
              r, error := ResolveSharedImpl(m);
            } else {
              r, error := ResolveRefImpl(m);
            }
            if error.Some? {
              return error;
            }
        }
        i := i + 1;
      }
      assert steps[i..] == [];
      StepsUnfold(Contents(), resolving, []);
    }
  }

  /** On a container whose factories ask for shared services only: after an instance
      was registered for `n`, on a new container or later, `m` resolves exactly when
      no cycle that avoids `n` is reachable from it. */
  method RegisterAndResolve(k: Container, n: Node, i: Instance, m: Node) returns (r: Option<Instance>)
    requires k.Valid() && k.resolving == {} && n in k.catalog.nodes && m in k.catalog.nodes
    requires PlainBeside(k.catalog, k.Contents(), m, n)
    modifies k
    ensures k.Valid() && (r.Some? <==> !CycleAvoiding(k.catalog, old(k.Contents()), m, n))
    ensures m == n ==> r == Some(i)
  {
    InstancesBreakCycles(k.catalog, k.Contents(), n, i, m);
    var ok := k.RegisterInstance(n, Some(i));
    SharedUnfold(k.catalog, k.Contents(), {}, m);
    hide ResolveShared, CycleAvoiding, PlainBeside, Closed, GoodStore;
    var error;
    r, error := k.ResolveSharedImpl(m);
  }
}
