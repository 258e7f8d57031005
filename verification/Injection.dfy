/**
  The dependency-injection resolver as a state-passing function.

  A service is a `Node`, a type together with a key (the empty key is the default
  binding table).  A factory is a `Recipe`: the resolver calls it makes, in order,
  and how it ends.  Exceptions are `Fail` outcomes that carry the store they leave
  behind, because a failed resolution still leaves auto-bindings and the
  singletons it managed to build.
 */
module Injection {
  import opened Wrappers

  type TypeId = string
  type Instance = nat

  datatype Node = Node(ty: TypeId, key: string)

  datatype Lifetime = Singleton | Transient

  datatype Mode = Shared | Reference

  /** One call a factory or an injected member makes back into the container. */
  datatype Step =
    | Resolve(target: Node, mode: Mode)
    | Pointer(ty: TypeId, key: string, mode: Mode)
    | Value(ty: TypeId, key: string, aggregate: bool, assignable: bool)

  datatype Ending = Produces | ReturnsNull | Throws

  datatype Recipe = Recipe(steps: seq<Step>, ending: Ending)

  /** `made` counts how often the recipe of this binding ran to completion. */
  datatype Binding = Binding(lifetime: Lifetime, recipe: Recipe, cached: Option<Instance>, made: nat)

  type Table = map<Node, Binding>

  datatype Store = Store(table: Table, next: Instance)

  datatype Member =
    | SharedPtr(ty: TypeId)
    | RawPtr(ty: TypeId)
    | Object(ty: TypeId, aggregate: bool, assignable: bool)
    | Opaque

  datatype TypeInfo = TypeInfo(defaultConstructible: bool, injectable: bool, members: seq<Member>)

  /** What is fixed at compile time: the services a program can name, and its types. */
  datatype Catalog = Catalog(nodes: set<Node>, types: map<TypeId, TypeInfo>)

  datatype Error =
    | Cyclic(node: Node)
    | NullProduct(node: Node)
    | FactoryThrew(node: Node)
    | TransientReference(node: Node)
    | Unassignable(ty: TypeId)

  datatype Outcome = Ok(instance: Instance, store: Store) | Fail(error: Error, store: Store)

  datatype Progress = Done(store: Store) | Stuck(error: Error, store: Store)

  // ---------- auto-bindings ----------

  function MemberSteps(members: seq<Member>, key: string): seq<Step> {
    if members == [] then []
    else
      (match members[0]
       case SharedPtr(t) => [Pointer(t, key, Shared)]
       case RawPtr(t) => [Pointer(t, key, Reference)]
       case Object(t, aggregate, assignable) => [Value(t, key, aggregate, assignable)]
       case Opaque => []) + MemberSteps(members[1..], key)
  }

  function AutoRecipe(info: TypeInfo): Recipe {
    if !info.defaultConstructible then Recipe([], Throws)
    else if !info.injectable then Recipe([], Produces)
    else Recipe(MemberSteps(info.members, ""), Produces)
  }

  function AutoBinding(c: Catalog, n: Node): Binding
    requires n.ty in c.types
  {
    Binding(Singleton, AutoRecipe(c.types[n.ty]), None, 0)
  }

  // ---------- which node a step asks for ----------

  datatype Action = Skip | Abort(ty: TypeId) | Demand(node: Node, mode: Mode)

  predicate HasKeyed(t: Table, ty: TypeId, key: string) {
    key != "" && Node(ty, key) in t
  }

  function Preferred(t: Table, ty: TypeId, key: string): Node {
    if HasKeyed(t, ty, key) then Node(ty, key) else Node(ty, "")
  }

  function Decide(t: Table, step: Step): Action {
    match step
    case Resolve(target, mode) => Demand(target, mode)
    case Pointer(ty, key, mode) => Demand(Preferred(t, ty, key), mode)
    case Value(ty, key, aggregate, assignable) =>
      if !(HasKeyed(t, ty, key) || Node(ty, "") in t || aggregate) then Skip
      else if !assignable then Abort(ty)
      else Demand(Preferred(t, ty, key), Reference)
  }

  /** The node a step falls back to; it must be a service the program can name. */
  function Fallback(step: Step): Node {
    if step.Resolve? then step.target else Node(step.ty, "")
  }

  /** Whatever the step may ask for is a service of the program; a member of class type
      that is no aggregate is left alone while its type has no binding. */
  predicate ClosedStep(c: Catalog, step: Step) {
    (step.Value? && !step.aggregate) || Fallback(step) in c.nodes
  }

  ghost predicate ClosedRecipe(c: Catalog, r: Recipe) {
    forall i :: 0 <= i < |r.steps| ==> ClosedStep(c, r.steps[i])
  }

  /** The same for a member the container may have to fill in. */
  predicate ClosedMember(c: Catalog, m: Member) {
    match m
    case SharedPtr(ty) => Node(ty, "") in c.nodes
    case RawPtr(ty) => Node(ty, "") in c.nodes
    case Object(ty, aggregate, _) => aggregate ==> Node(ty, "") in c.nodes
    case Opaque => true
  }

  ghost predicate ClosedType(c: Catalog, info: TypeInfo) {
    info.defaultConstructible && info.injectable ==> forall m :: m in info.members ==> ClosedMember(c, m)
  }

  ghost predicate ClosedCatalog(c: Catalog) {
    forall n :: n in c.nodes ==> n.ty in c.types && ClosedType(c, c.types[n.ty])
  }

  lemma {:induction false} ClosedMembers(c: Catalog, members: seq<Member>, key: string)
    requires forall m :: m in members ==> ClosedMember(c, m)
    ensures ClosedRecipe(c, Recipe(MemberSteps(members, key), Produces))
  {
    if members != [] {
      assert ClosedMember(c, members[0]);
      ClosedMembers(c, members[1..], key);
    }
  }

  lemma ClosedAuto(c: Catalog, n: Node)
    requires ClosedCatalog(c) && n in c.nodes
    ensures ClosedRecipe(c, AutoBinding(c, n).recipe)
  {
    var info := c.types[n.ty];
    if info.defaultConstructible && info.injectable {
      ClosedMembers(c, info.members, "");
    }
  }

  ghost predicate Closed(c: Catalog, t: Table) {
    && ClosedCatalog(c)
    && t.Keys <= c.nodes
    && (forall n :: n in t ==> ClosedRecipe(c, t[n].recipe))
  }

  // ---------- the resolver ----------

  function Bind(c: Catalog, s: Store, n: Node): Store
    requires Closed(c, s.table) && n in c.nodes
  {
    if n in s.table then s else s.(table := s.table[n := AutoBinding(c, n)])
  }

  function Finish(s: Store, n: Node): Store
    requires n in s.table
  {
    var b := s.table[n];
    var b' := if b.lifetime == Singleton then b.(cached := Some(s.next)) else b;
    Store(s.table[n := b'.(made := b.made + 1)], s.next + 1)
  }

  ghost predicate SameRule(b: Binding, b': Binding) {
    && b'.lifetime == b.lifetime && b'.recipe == b.recipe
    && (b.cached.Some? ==> b'.cached == b.cached)
  }

  /** Bindings are never dropped or re-written, and a cached instance stays put. */
  ghost predicate Grown(c: Catalog, s: Store, t: Store) {
    && s.next <= t.next
    && (forall n :: n in s.table ==> n in t.table && SameRule(s.table[n], t.table[n]))
    && (forall n :: n in t.table && n !in s.table ==> n.ty in c.types && SameRule(AutoBinding(c, n), t.table[n]))
  }

  lemma BindGrown(c: Catalog, s: Store, n: Node)
    requires Closed(c, s.table) && n in c.nodes
    ensures Closed(c, Bind(c, s, n).table) && Grown(c, s, Bind(c, s, n))
  {
    ClosedAuto(c, n);
    hide AutoRecipe, ClosedType;
  }

  lemma FinishGrown(c: Catalog, s: Store, t: Store, n: Node)
    requires Closed(c, t.table) && Grown(c, s, t) && n in s.table
    requires s.table[n].lifetime == Singleton ==> s.table[n].cached.None?
    ensures Closed(c, Finish(t, n).table) && Grown(c, s, Finish(t, n))
  {}

  lemma GrownTransitive(c: Catalog, s: Store, t: Store, u: Store)
    requires Grown(c, s, t) && Grown(c, t, u)
    ensures Grown(c, s, u)
  {
    forall n | n in u.table && n !in s.table ensures n.ty in c.types && SameRule(AutoBinding(c, n), u.table[n]) {
      if n in t.table {
        assert SameRule(t.table[n], u.table[n]);
      }
    }
  }

  function ResolveShared(c: Catalog, s: Store, path: set<Node>, n: Node): (r: Outcome)
    requires Closed(c, s.table) && n in c.nodes
    ensures Closed(c, r.store.table) && Grown(c, s, r.store) && n in r.store.table
    decreases c.nodes - path, 0, 0
  {
    BindGrown(c, s, n);
    var s1 := Bind(c, s, n);
    var b := s1.table[n];
    if b.lifetime == Singleton && b.cached.Some? then Ok(b.cached.value, s1)
    else if n in path then Fail(Cyclic(n), s1)
    else
      var r := RunSteps(c, s1, path + {n}, b.recipe.steps);
      GrownTransitive(c, s, s1, r.store);
      match r
      case Stuck(e, s2) => Fail(e, s2)
      case Done(s2) =>
        FinishGrown(c, s1, s2, n);
        GrownTransitive(c, s, s1, Finish(s2, n));
        match b.recipe.ending
        case Throws => Fail(FactoryThrew(n), s2)
        case ReturnsNull => Fail(NullProduct(n), s2)
        case Produces => Ok(s2.next, Finish(s2, n))
  }

  function ResolveRef(c: Catalog, s: Store, path: set<Node>, n: Node): (r: Outcome)
    requires Closed(c, s.table) && n in c.nodes
    ensures Closed(c, r.store.table) && Grown(c, s, r.store) && n in r.store.table
    decreases c.nodes - path, 1, 0
  {
    BindGrown(c, s, n);
    var s1 := Bind(c, s, n);
    var b := s1.table[n];
    if b.lifetime == Transient then Fail(TransientReference(n), s1)
    else if b.cached.Some? then Ok(b.cached.value, s1)
    else
      var r := ResolveShared(c, s1, path, n);
      GrownTransitive(c, s, s1, r.store);
      r
  }

  function Request(c: Catalog, s: Store, path: set<Node>, n: Node, mode: Mode): (r: Outcome)
    requires Closed(c, s.table) && n in c.nodes
    ensures Closed(c, r.store.table) && Grown(c, s, r.store) && n in r.store.table
    decreases c.nodes - path, 2, 0
  {
    if mode == Shared then ResolveShared(c, s, path, n) else ResolveRef(c, s, path, n)
  }

  function RunSteps(c: Catalog, s: Store, path: set<Node>, steps: seq<Step>): (r: Progress)
    requires Closed(c, s.table) && ClosedRecipe(c, Recipe(steps, Produces))
    ensures Closed(c, r.store.table) && Grown(c, s, r.store)
    decreases c.nodes - path, 3, |steps|
  {
    if steps == [] then Done(s)
    else
      match RunStep(c, s, path, steps[0])
      case Stuck(e, s1) => Stuck(e, s1)
      case Done(s1) =>
        var r := RunSteps(c, s1, path, steps[1..]);
        GrownTransitive(c, s, s1, r.store);
        r
  }

  function RunStep(c: Catalog, s: Store, path: set<Node>, step: Step): (r: Progress)
    requires Closed(c, s.table) && ClosedStep(c, step)
    ensures Closed(c, r.store.table) && Grown(c, s, r.store)
    decreases c.nodes - path, 2, 1
  {
    match Decide(s.table, step)
    case Skip => Done(s)
    case Abort(ty) => Stuck(Unassignable(ty), s)
    case Demand(m, mode) =>
      match Request(c, s, path, m, mode)
      case Fail(e, s1) => Stuck(e, s1)
      case Ok(_, s1) => Done(s1)
  }

  // ---------- one step of each, for proofs that hide the recursion ----------

  lemma SharedUnfold(c: Catalog, s: Store, path: set<Node>, n: Node)
    requires Closed(c, s.table) && n in c.nodes
    ensures n in Bind(c, s, n).table && Closed(c, Bind(c, s, n).table)
    ensures var s1 := Bind(c, s, n);
            var b := s1.table[n];
            var r := ResolveShared(c, s, path, n);
            && (b.lifetime == Singleton && b.cached.Some? ==> r == Ok(b.cached.value, s1))
            && (!(b.lifetime == Singleton && b.cached.Some?) && n in path ==> r == Fail(Cyclic(n), s1))
            && (!(b.lifetime == Singleton && b.cached.Some?) && n !in path ==>
                  && ClosedRecipe(c, Recipe(b.recipe.steps, Produces))
                  && var run := RunSteps(c, s1, path + {n}, b.recipe.steps);
                     && n in run.store.table
                     && r == if run.Stuck? then Fail(run.error, run.store)
                             else if b.recipe.ending == Throws then Fail(FactoryThrew(n), run.store)
                             else if b.recipe.ending == ReturnsNull then Fail(NullProduct(n), run.store)
                             else Ok(run.store.next, Finish(run.store, n)))
  {
    BindGrown(c, s, n);
  }

  lemma RefUnfold(c: Catalog, s: Store, path: set<Node>, n: Node)
    requires Closed(c, s.table) && n in c.nodes
    ensures n in Bind(c, s, n).table && Closed(c, Bind(c, s, n).table)
    ensures var s1 := Bind(c, s, n);
            var b := s1.table[n];
            ResolveRef(c, s, path, n) ==
              if b.lifetime == Transient then Fail(TransientReference(n), s1)
              else if b.cached.Some? then Ok(b.cached.value, s1)
              else ResolveShared(c, s1, path, n)
  {
    BindGrown(c, s, n);
  }

  lemma RequestUnfold(c: Catalog, s: Store, path: set<Node>, n: Node, mode: Mode)
    requires Closed(c, s.table) && n in c.nodes
    ensures Request(c, s, path, n, mode) ==
              if mode == Shared then ResolveShared(c, s, path, n) else ResolveRef(c, s, path, n)
  {}
}
