/**
  When a resolution succeeds, and what a history of resolutions keeps.

  The dependency graph of a store is read off its bindings, with cached
  singletons as leaves.  The main theorem says that the recursive, caching
  resolver succeeds exactly when no walk of that graph runs into a cycle, a
  failing factory, a transient asked for by reference or a member that cannot
  be assigned.
 */
module InjectionTheorems {
  import opened Wrappers
  import opened Injection

  // ---------- the dependency graph ----------

  /** The binding a node has, or would be given on its first resolution. */
  function Effective(c: Catalog, s: Store, n: Node): Binding
    requires n.ty in c.types
  {
    if n in s.table then s.table[n] else AutoBinding(c, n)
  }

  function Steps(c: Catalog, s: Store, n: Node): seq<Step>
    requires n.ty in c.types
  {
    Effective(c, s, n).recipe.steps
  }

  predicate IsLeaf(s: Store, n: Node) {
    n in s.table && s.table[n].lifetime == Singleton && s.table[n].cached.Some?
  }

  /** Nodes whose presence in the table a step looks at. */
  function Probes(step: Step): set<Node> {
    match step
    case Resolve(_, _) => {}
    case Pointer(ty, key, _) => if key == "" then {} else {Node(ty, key)}
    case Value(ty, key, aggregate, _) =>
      (if key == "" then {} else {Node(ty, key)}) + (if aggregate then {} else {Node(ty, "")})
  }

  ghost predicate Needs(c: Catalog, s: Store, n: Node, m: Node, mode: Mode)
    requires n.ty in c.types
  {
    exists i ::
      0 <= i < |Steps(c, s, n)| && Decide(s.table, Steps(c, s, n)[i]) == Demand(m, mode)
  }

  ghost predicate Edge(c: Catalog, s: Store, n: Node, m: Node)
    requires n.ty in c.types
  {
    !IsLeaf(s, n) && (Needs(c, s, n, m, Shared) || Needs(c, s, n, m, Reference))
  }

  ghost predicate Walk(c: Catalog, s: Store, p: seq<Node>)
    requires Closed(c, s.table)
  {
    && |p| > 0
    && (forall i :: 0 <= i < |p| ==> p[i] in c.nodes)
    && (forall i :: 0 <= i < |p| - 1 ==> Edge(c, s, p[i], p[i + 1]))
  }

  function Last(p: seq<Node>): Node
    requires |p| > 0
  {
    p[|p| - 1]
  }

  /** The walk `p` exhibits the reason `e` for which resolution must fail. */
  ghost predicate Exhibits(c: Catalog, s: Store, p: seq<Node>, e: Error)
    requires Closed(c, s.table)
  {
    && Walk(c, s, p)
    && var n := Last(p);
       match e
       case Cyclic(m) => m == n && n in p[..|p| - 1]
       case NullProduct(m) => m == n && !IsLeaf(s, n) && Effective(c, s, n).recipe.ending == ReturnsNull
       case FactoryThrew(m) => m == n && !IsLeaf(s, n) && Effective(c, s, n).recipe.ending == Throws
       case TransientReference(m) =>
         && m in c.nodes && !IsLeaf(s, n) && Needs(c, s, n, m, Reference)
         && Effective(c, s, m).lifetime == Transient
       case Unassignable(ty) =>
         !IsLeaf(s, n) &&
         exists i ::
           0 <= i < |Steps(c, s, n)| && Decide(s.table, Steps(c, s, n)[i]) == Abort(ty)
  }

  // ---------- presence tests ----------

  /** No presence test of the recipe of `n` can change its answer any more: what it
      looks for is bound already, or is not a service of this program. */
  ghost predicate SettledAt(c: Catalog, s: Store, n: Node)
    requires n.ty in c.types
  {
    forall i, p :: !IsLeaf(s, n) && 0 <= i < |Steps(c, s, n)| && p in Probes(Steps(c, s, n)[i])
                   ==> p in s.table || p !in c.nodes
  }

  /** A part of the graph that no edge leaves, with settled presence tests. */
  ghost predicate Settled(c: Catalog, s: Store, w: set<Node>) {
    && Closed(c, s.table) && w <= c.nodes
    && (forall n :: n in w ==> SettledAt(c, s, n))
    && (forall n, m :: n in w && Edge(c, s, n, m) ==> m in w)
  }

  ghost predicate Reachable(c: Catalog, s: Store, n: Node, m: Node)
    requires Closed(c, s.table)
  {
    exists p :: Walk(c, s, p) && p[0] == n && Last(p) == m
  }

  /** The presence tests of everything `n` depends on are settled. */
  ghost predicate SettledFrom(c: Catalog, s: Store, n: Node) {
    Closed(c, s.table) && forall m :: m in c.nodes && Reachable(c, s, n, m) ==> SettledAt(c, s, m)
  }

  ghost function Reach(c: Catalog, s: Store, n: Node): set<Node>
    requires Closed(c, s.table)
  {
    set m | m in c.nodes && Reachable(c, s, n, m)
  }

  lemma EdgeTarget(c: Catalog, s: Store, n: Node, m: Node)
    requires Closed(c, s.table) && n in c.nodes && Edge(c, s, n, m)
    ensures m in c.nodes
  {
    var i :| 0 <= i < |Steps(c, s, n)| && Decide(s.table, Steps(c, s, n)[i]).Demand?
             && Decide(s.table, Steps(c, s, n)[i]).node == m;
    ClosedAuto(c, n);
    assert ClosedStep(c, Steps(c, s, n)[i]);
  }

  lemma ReachIsSettled(c: Catalog, s: Store, n: Node)
    requires SettledFrom(c, s, n) && n in c.nodes
    ensures Settled(c, s, Reach(c, s, n)) && n in Reach(c, s, n)
  {
    assert Walk(c, s, [n]) && [n][0] == n && Last([n]) == n;
    forall a, m | a in Reach(c, s, n) && Edge(c, s, a, m) ensures m in Reach(c, s, n) {
      EdgeTarget(c, s, a, m);
      var p :| Walk(c, s, p) && p[0] == n && Last(p) == a;
      hide SettledAt, Edge;
      ExtendWalk(c, s, p, m);
      assert Last(p + [m]) == m && (p + [m])[0] == n;
    }
  }

  // ---------- a later store sees the same graph ----------

  /** `s` was reached from the settled store `s0` by resolutions. */
  ghost predicate Later(c: Catalog, s0: Store, s: Store, w: set<Node>) {
    Settled(c, s0, w) && Closed(c, s.table) && Grown(c, s0, s)
  }

  lemma LaterSame(c: Catalog, s0: Store, s: Store, w: set<Node>, n: Node)
    requires Later(c, s0, s, w) && n in c.nodes
    ensures Effective(c, s, n).recipe == Effective(c, s0, n).recipe
    ensures Effective(c, s, n).lifetime == Effective(c, s0, n).lifetime
    ensures IsLeaf(s0, n) ==> IsLeaf(s, n)
    ensures forall i :: n in w && !IsLeaf(s0, n) && 0 <= i < |Steps(c, s0, n)| ==>
              Decide(s.table, Steps(c, s0, n)[i]) == Decide(s0.table, Steps(c, s0, n)[i])
  {
    var steps := Steps(c, s0, n);
    forall i | n in w && !IsLeaf(s0, n) && 0 <= i < |steps|
      ensures Decide(s.table, steps[i]) == Decide(s0.table, steps[i])
    {
      var step := steps[i];
      forall p | p in Probes(step) ensures p in s.table <==> p in s0.table {}
      match step
      case Resolve(_, _) =>
      case Pointer(ty, key, _) => assert key != "" ==> Node(ty, key) in Probes(step);
      case Value(ty, key, aggregate, _) =>
        assert key != "" ==> Node(ty, key) in Probes(step);
        assert !aggregate ==> Node(ty, "") in Probes(step);
    }
  }

  lemma LaterBind(c: Catalog, s0: Store, s: Store, w: set<Node>, n: Node)
    requires Later(c, s0, s, w) && n in c.nodes
    ensures Later(c, s0, Bind(c, s, n), w) && Bind(c, s, n).table[n] == Effective(c, s, n)
  {
    BindGrown(c, s, n);
    GrownTransitive(c, s0, s, Bind(c, s, n));
    hide Settled, Grown, Closed;
  }

  // ---------- failures are real ----------

  lemma ExtendWalk(c: Catalog, s: Store, p: seq<Node>, m: Node)
    requires Closed(c, s.table) && Walk(c, s, p) && m in c.nodes && Edge(c, s, Last(p), m)
    ensures Walk(c, s, p + [m])
  {
    var q := p + [m];
    forall i | 0 <= i < |q| - 1 ensures Edge(c, s, q[i], q[i + 1]) {
      if i < |p| - 1 { assert Edge(c, s, p[i], p[i + 1]); }
    }
  }

  /** A failed call made below the unfinished nodes `chain` is exhibited by a walk
      of the original graph. */
  lemma {:induction false} FailureExhibited(c: Catalog, s0: Store, s: Store, w: set<Node>, chain: seq<Node>,
      path: set<Node>, n: Node)
    returns (p: seq<Node>)
    requires Later(c, s0, s, w) && n in w
    requires Walk(c, s0, chain + [n]) && path == set m | m in chain
    requires ResolveShared(c, s, path, n).Fail?
    ensures Exhibits(c, s0, p, ResolveShared(c, s, path, n).error) && chain + [n] <= p
    decreases c.nodes - path, 0, 0
  {
    LaterSame(c, s0, s, w, n);
    LaterBind(c, s0, s, w, n);
    SharedUnfold(c, s, path, n);
    hide ResolveShared, RunSteps, Settled, Grown, Closed, Decide, Edge, Needs;
    var s1 := Bind(c, s, n);
    p := chain + [n];
    assert p[..|p| - 1] == chain && Last(p) == n;
    if n !in path {
      var steps := Steps(c, s0, n);
      if RunSteps(c, s1, path + {n}, steps).Stuck? {
        p := StuckExhibited(c, s0, s1, w, chain + [n], path + {n}, steps, 0);
      }
    }
  }

  lemma StepsUnfold(c: Catalog, s: Store, path: set<Node>, steps: seq<Step>)
    requires Closed(c, s.table) && ClosedRecipe(c, Recipe(steps, Produces)) && steps != []
    ensures ClosedStep(c, steps[0]) && ClosedRecipe(c, Recipe(steps[1..], Produces))
    ensures var r := RunStep(c, s, path, steps[0]);
            RunSteps(c, s, path, steps) == if r.Stuck? then r else RunSteps(c, r.store, path, steps[1..])
  {}

  lemma {:induction false} StuckExhibited(c: Catalog, s0: Store, s: Store, w: set<Node>, chain: seq<Node>,
      path: set<Node>,
      steps: seq<Step>, at: nat)
    returns (p: seq<Node>)
    requires Later(c, s0, s, w) && Walk(c, s0, chain) && Last(chain) in w && path == (set m | m in chain) &&
        !IsLeaf(s0, Last(chain))
    requires at <= |Steps(c, s0, Last(chain))| &&
        steps == Steps(c, s0, Last(chain))[at..]
    requires ClosedRecipe(c, Recipe(steps, Produces)) && RunSteps(c, s, path, steps).Stuck?
    ensures Exhibits(c, s0, p, RunSteps(c, s, path, steps).error) && chain <= p
    decreases c.nodes - path, 3, |steps|
  {
    var n := Last(chain);
    assert steps[0] == Steps(c, s0, n)[at];
    StepsUnfold(c, s, path, steps);
    GrownTransitive(c, s0, s, RunStep(c, s, path, steps[0]).store);
    hide Settled, Grown, Walk, Decide, Effective, RunSteps, RunStep, Exhibits, Closed;
    var r := RunStep(c, s, path, steps[0]);
    if r.Done? {
      p := StuckExhibited(c, s0, r.store, w, chain, path, steps[1..], at + 1);
    } else {
      p := StepExhibited(c, s0, s, w, chain, path, at);
    }
  }

  lemma {:induction false} StepExhibited(c: Catalog, s0: Store, s: Store, w: set<Node>, chain: seq<Node>,
      path: set<Node>, at: nat)
    returns (p: seq<Node>)
    requires Later(c, s0, s, w) && Walk(c, s0, chain) && Last(chain) in w && path == (set m | m in chain) &&
        !IsLeaf(s0, Last(chain))
    requires at < |Steps(c, s0, Last(chain))|
    requires var step := Steps(c, s0, Last(chain))[at];
             ClosedStep(c, step) && RunStep(c, s, path, step).Stuck?
    ensures Exhibits(c, s0, p, RunStep(c, s, path, Steps(c, s0, Last(chain))[at]).error) && chain <= p
    decreases c.nodes - path, 2, 1
  {
    LaterSame(c, s0, s, w, Last(chain));
    var step := Steps(c, s0, Last(chain))[at];
    var a := Decide(s.table, step);
    if a.Abort? {
      p := chain;
    } else {
      assert Needs(c, s0, Last(chain), a.node, a.mode);
      p := DemandExhibited(c, s0, s, w, chain, path, a.node, a.mode);
    }
  }

  lemma {:induction false} DemandExhibited(c: Catalog, s0: Store, s: Store, w: set<Node>, chain: seq<Node>,
      path: set<Node>,
      m: Node, mode: Mode)
    returns (p: seq<Node>)
    requires Later(c, s0, s, w) && Walk(c, s0, chain) && Last(chain) in w && path == (set k | k in chain) &&
        !IsLeaf(s0, Last(chain))
    requires m in c.nodes && Needs(c, s0, Last(chain), m, mode) && Request(c, s, path, m, mode).Fail?
    ensures Exhibits(c, s0, p, Request(c, s, path, m, mode).error) && chain <= p
    decreases c.nodes - path, 2, 0
  {
    LaterSame(c, s0, s, w, m);
    LaterBind(c, s0, s, w, m);
    assert Edge(c, s0, Last(chain), m);
    ExtendWalk(c, s0, chain, m);
    hide ResolveShared, RunSteps, RunStep, Decide, Grown, Settled, Needs, Edge, Walk;
    if mode == Reference && Effective(c, s0, m).lifetime == Transient {
      p := chain;
    } else if mode == Reference {
      p := FailureExhibited(c, s0, Bind(c, s, m), w, chain, path, m);
    } else {
      p := FailureExhibited(c, s0, s, w, chain, path, m);
    }
  }

  // ---------- successes are solid ----------

  /** Every walk from `n` ends well within `h` edges. */
  ghost predicate Solid(c: Catalog, s: Store, n: Node, h: nat)
    requires Closed(c, s.table)
    decreases h, 0
  {
    && n in c.nodes
    && (IsLeaf(s, n) ||
        (h > 0 && Effective(c, s, n).recipe.ending == Produces &&
            SolidSteps(c, s, Steps(c, s, n), h - 1)))
  }

  ghost predicate SolidSteps(c: Catalog, s: Store, steps: seq<Step>, h: nat)
    requires Closed(c, s.table)
    decreases h, 1
  {
    forall i :: 0 <= i < |steps| ==>
      match Decide(s.table, steps[i])
      case Skip => true
      case Abort(_) => false
      case Demand(m, mode) =>
        Solid(c, s, m, h) && (mode == Reference ==> Effective(c, s, m).lifetime == Singleton)
  }

  ghost predicate Sound(c: Catalog, s: Store, n: Node)
    requires Closed(c, s.table)
  {
    exists h: nat :: Solid(c, s, n, h)
  }

  lemma {:induction false} SolidTaller(c: Catalog, s: Store, n: Node, h: nat, h': nat)
    requires Closed(c, s.table) && Solid(c, s, n, h) && h <= h'
    ensures Solid(c, s, n, h')
    decreases h, 0
  {
    if !IsLeaf(s, n) {
      SolidStepsTaller(c, s, Steps(c, s, n), h - 1, h' - 1);
    }
  }

  lemma {:induction false} SolidStepsTaller(c: Catalog, s: Store, steps: seq<Step>, h: nat, h': nat)
    requires Closed(c, s.table) && SolidSteps(c, s, steps, h) && h <= h'
    ensures SolidSteps(c, s, steps, h')
    decreases h, 1
  {
    forall i | 0 <= i < |steps| && Decide(s.table, steps[i]).Demand?
      ensures Solid(c, s, Decide(s.table, steps[i]).node, h')
    {
      SolidTaller(c, s, Decide(s.table, steps[i]).node, h, h');
    }
  }

  /** Whatever is cached in `s` could be built from `s0`. */
  ghost predicate Backed(c: Catalog, s0: Store, s: Store, w: set<Node>)
    requires Closed(c, s0.table)
  {
    forall n :: n in w && IsLeaf(s, n) ==> Sound(c, s0, n)
  }

  lemma {:induction false} SuccessSound(c: Catalog, s0: Store, s: Store, w: set<Node>, path: set<Node>, n: Node)
    requires Later(c, s0, s, w) && Backed(c, s0, s, w) && n in c.nodes
    ensures Backed(c, s0, ResolveShared(c, s, path, n).store, w)
    ensures n in w && ResolveShared(c, s, path, n).Ok? ==> Sound(c, s0, n)
    decreases c.nodes - path, 0, 0
  {
    LaterSame(c, s0, s, w, n);
    LaterBind(c, s0, s, w, n);
    BindBacked(c, s0, s, w, n);
    var s1 := Bind(c, s, n);
    var b := s1.table[n];
    if IsLeaf(s1, n) {
    } else if n !in path {
      var steps := b.recipe.steps;
      assert steps[0..] == steps;
      var h := StepsSound(c, s0, s1, w, path + {n}, steps, n, 0);
      var r := RunSteps(c, s1, path + {n}, steps);
      if r.Done? && b.recipe.ending == Produces {
        if n in w { assert Solid(c, s0, n, h + 1); }
        FinishBacked(c, s0, r.store, w, n);
      }
    }
  }

  lemma BindBacked(c: Catalog, s0: Store, s: Store, w: set<Node>, n: Node)
    requires Closed(c, s0.table) && Backed(c, s0, s, w) && Closed(c, s.table) && n in c.nodes
    ensures Backed(c, s0, Bind(c, s, n), w)
  {
    forall m | m in w && IsLeaf(Bind(c, s, n), m) ensures Sound(c, s0, m) { assert IsLeaf(s, m); }
  }

  lemma FinishBacked(c: Catalog, s0: Store, s: Store, w: set<Node>, n: Node)
    requires Closed(c, s0.table) && Backed(c, s0, s, w) && n in s.table && (n in w ==> Sound(c, s0, n))
    ensures Backed(c, s0, Finish(s, n), w)
  {
    forall m | m in w && IsLeaf(Finish(s, n), m) ensures Sound(c, s0, m) { assert m == n || IsLeaf(s, m); }
  }

  lemma DemandInScope(c: Catalog, s: Store, w: set<Node>, n: Node, i: nat)
    requires Settled(c, s, w) && n in c.nodes && !IsLeaf(s, n) && i < |Steps(c, s, n)|
    ensures n in w && Decide(s.table, Steps(c, s, n)[i]).Demand? ==> Decide(s.table, Steps(c, s, n)[i]).node in w
  {
    var a := Decide(s.table, Steps(c, s, n)[i]);
    if n in w && a.Demand? {
      assert Needs(c, s, n, a.node, a.mode);
      assert a.mode == Shared || a.mode == Reference;
      assert Edge(c, s, n, a.node);
    }
  }

  lemma {:induction false} StepsSound(c: Catalog, s0: Store, s: Store, w: set<Node>, path: set<Node>,
      steps: seq<Step>, owner: Node,
      at: nat)
    returns (h: nat)
    requires Later(c, s0, s, w) && Backed(c, s0, s, w) && owner in c.nodes && !IsLeaf(s0, owner)
    requires at <= |Steps(c, s0, owner)| && steps == Steps(c, s0, owner)[at..]
    requires ClosedRecipe(c, Recipe(steps, Produces))
    ensures Backed(c, s0, RunSteps(c, s, path, steps).store, w)
    ensures owner in w && RunSteps(c, s, path, steps).Done? ==> SolidSteps(c, s0, steps, h)
    decreases c.nodes - path, 3, |steps|
  {
    h := 0;
    if steps != [] {
      LaterSame(c, s0, s, w, owner);
      assert steps[0] == Steps(c, s0, owner)[at];
      StepSound(c, s0, s, w, path, steps[0]);
      StepsUnfold(c, s, path, steps);
      GrownTransitive(c, s0, s, RunStep(c, s, path, steps[0]).store);
      DemandInScope(c, s0, w, owner, at);
      hide Settled, Grown, Backed, RunSteps, RunStep, Closed, Solid, Effective;
      var r := RunStep(c, s, path, steps[0]);
      if r.Done? {
        h := StepsSound(c, s0, r.store, w, path, steps[1..], owner, at + 1);
        if owner in w && RunSteps(c, r.store, path, steps[1..]).Done? {
          h := JoinSteps(c, s0, steps, h);
        }
      }
    }
  }

  lemma JoinSteps(c: Catalog, s: Store, steps: seq<Step>, h: nat) returns (k: nat)
    requires Closed(c, s.table) && steps != [] && SolidSteps(c, s, steps[1..], h)
    requires match Decide(s.table, steps[0])
             case Skip => true
             case Abort(_) => false
             case Demand(m, mode) => Sound(c, s, m) && (mode == Reference ==> Effective(c, s, m).lifetime == Singleton)
    ensures SolidSteps(c, s, steps, k)
  {
    k := h;
    if Decide(s.table, steps[0]).Demand? {
      var m := Decide(s.table, steps[0]).node;
      var g: nat :| Solid(c, s, m, g);
      k := if g > h then g else h;
      SolidTaller(c, s, m, g, k);
    }
    SolidStepsTaller(c, s, steps[1..], h, k);
    forall i | 1 <= i < |steps| ensures steps[i] == steps[1..][i - 1] {}
  }

  lemma {:induction false} StepSound(c: Catalog, s0: Store, s: Store, w: set<Node>, path: set<Node>, step: Step)
    requires Later(c, s0, s, w) && Backed(c, s0, s, w) && ClosedStep(c, step)
    ensures Backed(c, s0, RunStep(c, s, path, step).store, w)
    ensures RunStep(c, s, path, step).Done? && Decide(s.table, step) == Decide(s0.table, step) ==>
              match Decide(s0.table, step)
              case Skip => true
              case Abort(_) => false
              case Demand(m, mode) =>
                m in w ==> Sound(c, s0, m) && (mode == Reference ==> Effective(c, s0, m).lifetime == Singleton)
    decreases c.nodes - path, 2, 1
  {
    var a := Decide(s.table, step);
    if a.Demand? {
      RequestSound(c, s0, s, w, path, a.node, a.mode);
    }
  }

  lemma {:induction false} RequestSound(c: Catalog, s0: Store, s: Store, w: set<Node>, path: set<Node>, n: Node,
      mode: Mode)
    requires Later(c, s0, s, w) && Backed(c, s0, s, w) && n in c.nodes
    ensures Backed(c, s0, Request(c, s, path, n, mode).store, w)
    ensures n in w && Request(c, s, path, n, mode).Ok? ==>
              Sound(c, s0, n) && (mode == Reference ==> Effective(c, s0, n).lifetime == Singleton)
    decreases c.nodes - path, 2, 0
  {
    RequestUnfold(c, s, path, n, mode);
    RefUnfold(c, s, path, n);
    LaterSame(c, s0, s, w, n);
    LaterBind(c, s0, s, w, n);
    hide ResolveShared, ResolveRef, Request, RunSteps, Solid, Settled, Grown;
    if mode == Shared {
      SuccessSound(c, s0, s, w, path, n);
    } else {
      var s1 := Bind(c, s, n);
      BindBacked(c, s0, s, w, n);
      if s1.table[n].lifetime == Singleton {
        if s1.table[n].cached.Some? {
          assert IsLeaf(s1, n);
        } else {
          SuccessSound(c, s0, s1, w, path, n);
        }
      }
    }
  }

  // ---------- solid nodes have no exhibit ----------

  lemma SolidStep(c: Catalog, s: Store, n: Node, m: Node, h: nat)
    requires Closed(c, s.table) && n in c.nodes && Solid(c, s, n, h) && Edge(c, s, n, m)
    ensures h > 0 && Solid(c, s, m, h - 1)
  {}

  lemma {:induction false} NoCycleThrough(c: Catalog, s: Store, h: nat, p: seq<Node>)
    requires Closed(c, s.table) && Walk(c, s, p) && |p| > 1 && p[0] == Last(p) && Solid(c, s, p[0], h)
    ensures false
    decreases h
  {
    SolidStep(c, s, p[0], p[1], h);
    var q := p[1..] + [p[1]];
    forall i | 0 <= i < |q| - 1 ensures Edge(c, s, q[i], q[i + 1]) {
      assert Edge(c, s, p[i + 1], if i + 2 < |p| then p[i + 2] else p[1]);
    }
    NoCycleThrough(c, s, h - 1, q);
  }

  lemma {:induction false} SolidAlong(c: Catalog, s: Store, h: nat, p: seq<Node>, i: nat)
    requires Closed(c, s.table) && Walk(c, s, p) && Solid(c, s, p[0], h) && i < |p|
    ensures i <= h && Solid(c, s, p[i], h - i)
  {
    if i > 0 {
      SolidAlong(c, s, h, p, i - 1);
      SolidStep(c, s, p[i - 1], p[i], h - (i - 1));
    }
  }

  lemma SuffixWalk(c: Catalog, s: Store, p: seq<Node>, i: nat)
    requires Closed(c, s.table) && Walk(c, s, p) && i < |p|
    ensures Walk(c, s, p[i..])
  {
    var q := p[i..];
    forall j | 0 <= j < |q| - 1 ensures Edge(c, s, q[j], q[j + 1]) {
      assert Edge(c, s, p[i + j], p[i + j + 1]);
    }
  }

  lemma SolidEndsWell(c: Catalog, s: Store, p: seq<Node>, e: Error, h: nat)
    requires Closed(c, s.table) && Walk(c, s, p) && Solid(c, s, Last(p), h) && !e.Cyclic?
    ensures !Exhibits(c, s, p, e)
  {}

  lemma SolidNeverReturns(c: Catalog, s: Store, p: seq<Node>, h: nat)
    requires Closed(c, s.table) && Walk(c, s, p) && Solid(c, s, p[0], h)
    ensures Last(p) !in p[..|p| - 1]
  {
    hide Solid;
    forall i | 0 <= i < |p| - 1 ensures p[i] != Last(p) {
      if p[i] == Last(p) {
        SolidAlong(c, s, h, p, i);
        SuffixWalk(c, s, p, i);
        NoCycleThrough(c, s, h - i, p[i..]);
      }
    }
  }

  lemma SoundHasNoExhibit(c: Catalog, s: Store, p: seq<Node>, e: Error)
    requires Closed(c, s.table) && Walk(c, s, p) && Sound(c, s, p[0])
    ensures !Exhibits(c, s, p, e)
  {
    var h: nat :| Solid(c, s, p[0], h);
    SolidNeverReturns(c, s, p, h);
    SolidAlong(c, s, h, p, |p| - 1);
    if !e.Cyclic? {
      SolidEndsWell(c, s, p, e, h - (|p| - 1));
    }
    hide Solid, Walk, Needs;
  }

  // ---------- the theorems ----------

  ghost predicate Hopeless(c: Catalog, s: Store, n: Node)
    requires Closed(c, s.table)
  {
    exists p, e :: Exhibits(c, s, p, e) && p[0] == n
  }

  /** In shared mode, resolution succeeds exactly when nothing bad is reachable, and
      the error it reports is one that is. */
  lemma SharedIsExact(c: Catalog, s: Store, w: set<Node>, n: Node)
    requires Settled(c, s, w) && n in w
    ensures ResolveShared(c, s, {}, n).Ok? <==> !Hopeless(c, s, n)
    ensures ResolveShared(c, s, {}, n).Ok? <==> Sound(c, s, n)
    ensures ResolveShared(c, s, {}, n).Fail? ==>
              exists p :: Exhibits(c, s, p, ResolveShared(c, s, {}, n).error) && p[0] == n
  {
    var r := ResolveShared(c, s, {}, n);
    SelfBacked(c, s, w);
    SuccessSound(c, s, s, w, {}, n);
    if r.Fail? {
      assert [] + [n] == [n];
      var p := FailureExhibited(c, s, s, w, [], {}, n);
      assert Exhibits(c, s, p, r.error) && p[0] == n;
      if Sound(c, s, n) { SoundHasNoExhibit(c, s, p, r.error); }
    } else {
      forall p, e | Exhibits(c, s, p, e) && p[0] == n ensures false { SoundHasNoExhibit(c, s, p, e); }
    }
  }

  /** A shared service, or a member of class type that is left alone because its type
      is no service of the program. */
  predicate IsShared(c: Catalog, step: Step) {
    match step
    case Resolve(_, mode) => mode == Shared
    case Pointer(_, _, mode) => mode == Shared
    case Value(ty, key, aggregate, _) =>
      !aggregate && Node(ty, "") !in c.nodes && (key == "" || Node(ty, key) !in c.nodes)
  }

  ghost predicate SharedAt(c: Catalog, s: Store, m: Node)
    requires m.ty in c.types
  {
    !IsLeaf(s, m) ==>
      && Effective(c, s, m).recipe.ending == Produces
      && forall i :: 0 <= i < |Steps(c, s, m)| ==> IsShared(c, Steps(c, s, m)[i])
  }

  /** Whatever `n` may still need is built from shared services, by a factory that produces. */
  ghost predicate SharedOnly(c: Catalog, s: Store, n: Node)
    requires Closed(c, s.table)
  {
    forall m :: m in c.nodes && Reachable(c, s, n, m) ==> SharedAt(c, s, m)
  }

  /** A walk from `m` that comes back to a node it has visited. */
  ghost predicate CycleFrom(c: Catalog, s: Store, p: seq<Node>, m: Node)
    requires Closed(c, s.table)
  {
    Walk(c, s, p) && p[0] == m && Last(p) in p[..|p| - 1]
  }

  ghost predicate CycleReachable(c: Catalog, s: Store, n: Node)
    requires Closed(c, s.table)
  {
    exists p :: CycleFrom(c, s, p, n)
  }

  lemma SharedExhibitsCycles(c: Catalog, s: Store, p: seq<Node>, e: Error)
    requires Closed(c, s.table) && Exhibits(c, s, p, e) && SharedAt(c, s, Last(p))
    ensures e == Cyclic(Last(p)) && Last(p) in p[..|p| - 1]
  {
    var n := Last(p);
    if !IsLeaf(s, n) {
      var steps := Steps(c, s, n);
      forall i | 0 <= i < |steps|
        ensures !Decide(s.table, steps[i]).Abort?
        ensures Decide(s.table, steps[i]).Demand? ==> Decide(s.table, steps[i]).mode == Shared
      {
        assert IsShared(c, steps[i]);
      }
    }
  }

  /** With shared edges and factories that always produce, only cycles matter;
      cached singletons and registered instances are leaves. */
  lemma SharedResolutionDetectsCycles(c: Catalog, s: Store, n: Node)
    requires SettledFrom(c, s, n) && SharedOnly(c, s, n) && n in c.nodes
    ensures ResolveShared(c, s, {}, n).Ok? <==> !CycleReachable(c, s, n)
  {
    ReachIsSettled(c, s, n);
    SharedIsExact(c, s, Reach(c, s, n), n);
    hide ResolveShared, SharedAt, SettledFrom, Settled;
    forall p | CycleFrom(c, s, p, n) ensures Hopeless(c, s, n) {
      assert Exhibits(c, s, p, Cyclic(Last(p)));
    }
    forall p, e | Exhibits(c, s, p, e) && p[0] == n ensures CycleReachable(c, s, n) {
      assert Reachable(c, s, n, Last(p));
      SharedExhibitsCycles(c, s, p, e);
      assert CycleFrom(c, s, p, n);
    }
  }

  predicate IsPlain(c: Catalog, step: Step) {
    IsShared(c, step) && (step.Pointer? ==> step.key == "")
  }

  ghost predicate PlainAt(c: Catalog, s: Store, m: Node)
    requires m.ty in c.types
  {
    !IsLeaf(s, m) ==>
      && Effective(c, s, m).recipe.ending == Produces
      && forall i :: 0 <= i < |Steps(c, s, m)| ==> IsPlain(c, Steps(c, s, m)[i])
  }

  /** The same with services asked for by type and key, or by a plain pointer member. */
  ghost predicate PlainShared(c: Catalog, s: Store, n: Node)
    requires Closed(c, s.table)
  {
    forall m :: m in c.nodes && Reachable(c, s, n, m) ==> PlainAt(c, s, m)
  }

  lemma PlainIsSettled(c: Catalog, s: Store, m: Node)
    requires m.ty in c.types && PlainAt(c, s, m)
    ensures SharedAt(c, s, m) && SettledAt(c, s, m)
  {
    forall i | !IsLeaf(s, m) && 0 <= i < |Steps(c, s, m)|
      ensures IsShared(c, Steps(c, s, m)[i]) && forall p :: p in Probes(Steps(c, s, m)[i]) ==> p !in c.nodes
    {
      assert IsPlain(c, Steps(c, s, m)[i]);
    }
  }

  /** Such graphs are settled from the start, so cycle detection needs no further condition. */
  lemma PlainSharedGraphs(c: Catalog, s: Store, n: Node)
    requires Closed(c, s.table) && PlainShared(c, s, n) && n in c.nodes
    ensures ResolveShared(c, s, {}, n).Ok? <==> !CycleReachable(c, s, n)
  {
    forall m | m in c.nodes && Reachable(c, s, n, m) ensures SharedAt(c, s, m) && SettledAt(c, s, m) {
      PlainIsSettled(c, s, m);
    }
    hide SharedAt, SettledAt, PlainAt;
    SharedResolutionDetectsCycles(c, s, n);
  }

  // ---------- registered instances ----------

  /** Registers an existing object under `n`; its factory must never be called. */
  function WithInstance(s: Store, n: Node, i: Instance): Store {
    Store(s.table[n := Binding(Singleton, Recipe([], Throws), Some(i), 0)], if i < s.next then s.next else i + 1)
  }

  /** A walk from `m` that keeps clear of `n`. */
  ghost predicate WalkAvoiding(c: Catalog, s: Store, p: seq<Node>, m: Node, n: Node)
    requires Closed(c, s.table)
  {
    Walk(c, s, p) && p[0] == m && n !in p
  }

  /** A cycle reachable from `m` without passing through `n`. */
  ghost predicate CycleAvoiding(c: Catalog, s: Store, m: Node, n: Node)
    requires Closed(c, s.table)
  {
    exists p :: CycleFrom(c, s, p, m) && n !in p
  }

  /** Whatever `m` needs without passing through `n` is plain; `n` itself may be anything. */
  ghost predicate PlainBeside(c: Catalog, s: Store, m: Node, n: Node)
    requires Closed(c, s.table)
  {
    forall p :: WalkAvoiding(c, s, p, m, n) ==> PlainAt(c, s, Last(p))
  }

  /** The instance is a leaf; the edges of the other plain nodes are what they were. */
  lemma InstanceCutsEdges(c: Catalog, s: Store, n: Node, i: Instance, a: Node, b: Node)
    requires Closed(c, s.table) && n in c.nodes && a in c.nodes && (a != n ==> PlainAt(c, s, a))
    ensures Closed(c, WithInstance(s, n, i).table)
    ensures Edge(c, WithInstance(s, n, i), a, b) <==> a != n && Edge(c, s, a, b)
    ensures PlainAt(c, WithInstance(s, n, i), a)
  {
    var t := WithInstance(s, n, i);
    if a != n && !IsLeaf(s, a) {
      var steps := Steps(c, s, a);
      assert Steps(c, t, a) == steps;
      forall k | 0 <= k < |steps| ensures Decide(t.table, steps[k]) == Decide(s.table, steps[k]) {
        assert IsPlain(c, steps[k]);
      }
    }
  }

  lemma PrefixWalk(c: Catalog, s: Store, p: seq<Node>)
    requires Closed(c, s.table) && |p| > 1
    ensures Walk(c, s, p) <==>
              Walk(c, s, p[..|p| - 1]) && Last(p) in c.nodes && Edge(c, s, Last(p[..|p| - 1]), Last(p))
  {
    var q := p[..|p| - 1];
    hide Edge;
    if Walk(c, s, q) && Last(p) in c.nodes && Edge(c, s, Last(q), Last(p)) {
      forall k | 0 <= k < |p| - 1 ensures Edge(c, s, p[k], p[k + 1]) {
        if k < |q| - 1 { assert Edge(c, s, q[k], q[k + 1]); }
      }
    }
  }

  /** The walks of the new graph are those of the old one that enter `n` only to end there. */
  lemma {:induction false} InstanceKeepsWalks(
    c: Catalog, s: Store, n: Node, i: Instance, p: seq<Node>, m: Node)
    requires Closed(c, s.table) && n in c.nodes && PlainBeside(c, s, m, n) && |p| > 0 && p[0] == m
    ensures Closed(c, WithInstance(s, n, i).table)
    ensures Walk(c, WithInstance(s, n, i), p) <==> Walk(c, s, p) && n !in p[..|p| - 1]
    decreases |p|
  {
    var t := WithInstance(s, n, i);
    if |p| > 1 {
      var q := p[..|p| - 1];
      InstanceKeepsWalks(c, s, n, i, q, m);
      PrefixWalk(c, s, p);
      PrefixWalk(c, t, p);
      assert q == q[..|q| - 1] + [Last(q)];
      if Walk(c, s, q) && n !in q[..|q| - 1] {
        assert Last(q) != n ==> WalkAvoiding(c, s, q, m, n);
        InstanceCutsEdges(c, s, n, i, Last(q), Last(p));
      }
      hide Walk, Edge, PlainBeside;
    } else {
      assert p[..|p| - 1] == [];
    }
  }

  lemma InstanceKeepsCycles(c: Catalog, s: Store, n: Node, i: Instance, m: Node)
    requires Closed(c, s.table) && n in c.nodes && PlainBeside(c, s, m, n)
    ensures Closed(c, WithInstance(s, n, i).table)
    ensures CycleReachable(c, WithInstance(s, n, i), m) <==> CycleAvoiding(c, s, m, n)
  {
    var t := WithInstance(s, n, i);
    forall p ensures CycleFrom(c, t, p, m) <==> CycleFrom(c, s, p, m) && n !in p {
      if |p| > 0 && p[0] == m {
        InstanceKeepsWalks(c, s, n, i, p, m);
        assert p == p[..|p| - 1] + [Last(p)];
      }
    }
    hide CycleFrom, PlainBeside;
  }

  lemma InstanceKeepsPlain(c: Catalog, s: Store, n: Node, i: Instance, m: Node)
    requires Closed(c, s.table) && n in c.nodes && PlainBeside(c, s, m, n)
    ensures Closed(c, WithInstance(s, n, i).table) && PlainShared(c, WithInstance(s, n, i), m)
  {
    var t := WithInstance(s, n, i);
    forall k | k in c.nodes && Reachable(c, t, m, k) ensures PlainAt(c, t, k) {
      var p :| Walk(c, t, p) && p[0] == m && Last(p) == k;
      InstanceKeepsWalks(c, s, n, i, p, m);
      assert p == p[..|p| - 1] + [k];
      assert k != n ==> WalkAvoiding(c, s, p, m, n);
      InstanceCutsEdges(c, s, n, i, k, k);
    }
  }

  /** Registering an instance for `n`, whatever `n` was bound to, makes exactly those
      services resolvable whose reachable cycles all pass through `n`. */
  lemma InstancesBreakCycles(c: Catalog, s: Store, n: Node, i: Instance, m: Node)
    requires Closed(c, s.table) && n in c.nodes && m in c.nodes && PlainBeside(c, s, m, n)
    ensures Closed(c, WithInstance(s, n, i).table)
    ensures ResolveShared(c, WithInstance(s, n, i), {}, m).Ok? <==> !CycleAvoiding(c, s, m, n)
  {
    InstanceKeepsCycles(c, s, n, i, m);
    InstanceKeepsPlain(c, s, n, i, m);
    hide *;
    PlainSharedGraphs(c, WithInstance(s, n, i), m);
  }

  // ---------- histories ----------

  datatype Call = Call(node: Node, mode: Mode)

  /** A sequence of top-level resolutions, failures included. */
  function Run(c: Catalog, s: Store, calls: seq<Call>): (t: Store)
    requires Closed(c, s.table) && forall i :: 0 <= i < |calls| ==> calls[i].node in c.nodes
    ensures Closed(c, t.table) && Grown(c, s, t)
    decreases |calls|
  {
    if calls == [] then s
    else
      var s1 := Request(c, s, {}, calls[0].node, calls[0].mode).store;
      GrownTransitive(c, s, s1, Run(c, s1, calls[1..]));
      Run(c, s1, calls[1..])
  }

  lemma {:induction false} SoundBack(c: Catalog, s0: Store, s: Store, w: set<Node>, n: Node, h: nat)
    requires Later(c, s0, s, w) && Backed(c, s0, s, w) && n in w && Solid(c, s, n, h)
    ensures Sound(c, s0, n)
    decreases h, 0, 0
  {
    if !IsLeaf(s, n) {
      LaterSame(c, s0, s, w, n);
      var steps := Steps(c, s0, n);
      assert steps[0..] == steps;
      var g := StepsBack(c, s0, s, w, n, steps, 0, h - 1);
      assert Solid(c, s0, n, g + 1);
    }
  }

  lemma {:induction false} StepsBack(c: Catalog, s0: Store, s: Store, w: set<Node>, owner: Node, steps: seq<Step>,
      at: nat, h: nat)
      returns (g: nat)
    requires Later(c, s0, s, w) && Backed(c, s0, s, w) && owner in w && !IsLeaf(s0, owner) && SolidSteps(c, s, steps, h)
    requires at <= |Steps(c, s0, owner)| && steps == Steps(c, s0, owner)[at..]
    ensures SolidSteps(c, s0, steps, g)
    decreases h, 1, |steps|
  {
    g := 0;
    if steps != [] {
      LaterSame(c, s0, s, w, owner);
      assert steps[0] == Steps(c, s0, owner)[at];
      forall i | 0 <= i < |steps[1..]| ensures steps[1..][i] == steps[i + 1] {}
      var g0 := StepsBack(c, s0, s, w, owner, steps[1..], at + 1, h);
      var a := Decide(s.table, steps[0]);
      if a.Demand? {
        SoundBack(c, s0, s, w, a.node, h);
        LaterSame(c, s0, s, w, a.node);
      }
      g := JoinSteps(c, s0, steps, g0);
    }
  }

  lemma {:induction false} SoundForth(c: Catalog, s0: Store, s: Store, w: set<Node>, n: Node, h: nat)
    requires Later(c, s0, s, w) && n in w && Solid(c, s0, n, h)
    ensures Solid(c, s, n, h)
    decreases h
  {
    LaterSame(c, s0, s, w, n);
    if !IsLeaf(s, n) {
      var steps := Steps(c, s0, n);
      forall i | 0 <= i < |steps| && Decide(s0.table, steps[i]).Demand?
        ensures Solid(c, s, Decide(s0.table, steps[i]).node, h - 1)
        ensures Effective(c, s, Decide(s0.table, steps[i]).node).lifetime
             == Effective(c, s0, Decide(s0.table, steps[i]).node).lifetime
      {
        var m := Decide(s0.table, steps[i]).node;
        SoundForth(c, s0, s, w, m, h - 1);
        LaterSame(c, s0, s, w, m);
      }
    }
  }

  lemma {:induction false} RunBacked(c: Catalog, s0: Store, s: Store, w: set<Node>, calls: seq<Call>)
    requires Later(c, s0, s, w) && Backed(c, s0, s, w)
    requires forall i :: 0 <= i < |calls| ==> calls[i].node in c.nodes
    ensures Later(c, s0, Run(c, s, calls), w) && Backed(c, s0, Run(c, s, calls), w)
    decreases |calls|
  {
    if calls != [] {
      RequestSound(c, s0, s, w, {}, calls[0].node, calls[0].mode);
      RunBacked(c, s0, Request(c, s, {}, calls[0].node, calls[0].mode).store, w, calls[1..]);
    }
  }

  lemma LaterEdge(c: Catalog, s0: Store, s: Store, w: set<Node>, n: Node, m: Node)
    requires Later(c, s0, s, w) && n in w && Edge(c, s, n, m)
    ensures Edge(c, s0, n, m)
  {
    LaterSame(c, s0, s, w, n);
    var steps := Steps(c, s0, n);
    assert Steps(c, s, n) == steps && !IsLeaf(s0, n);
    hide Settled, Grown, Closed;
    var mode := if Needs(c, s, n, m, Shared) then Shared else Reference;
    var i :| 0 <= i < |steps| && Decide(s.table, steps[i]) == Demand(m, mode);
    assert Decide(s0.table, steps[i]) == Demand(m, mode);
    assert Needs(c, s0, n, m, mode);
  }

  lemma SettledLater(c: Catalog, s0: Store, s: Store, w: set<Node>)
    requires Later(c, s0, s, w)
    ensures Settled(c, s, w)
  {
    forall n | n in w ensures SettledAt(c, s, n) {
      LaterSame(c, s0, s, w, n);
      assert SettledAt(c, s0, n) && Steps(c, s, n) == Steps(c, s0, n);
    }
    forall n, m | n in w && Edge(c, s, n, m) ensures m in w {
      LaterEdge(c, s0, s, w, n, m);
    }
  }

  /** Whether a service can be resolved in shared mode does not depend on what was
      resolved before it, successfully or not. */
  lemma SharedHistory(c: Catalog, s: Store, w: set<Node>, calls: seq<Call>, n: Node)
    requires Settled(c, s, w) && n in w
    requires forall i :: 0 <= i < |calls| ==> calls[i].node in c.nodes
    ensures ResolveShared(c, Run(c, s, calls), {}, n).Ok? <==> ResolveShared(c, s, {}, n).Ok?
  {
    SelfBacked(c, s, w);
    RunBacked(c, s, s, w, calls);
    var t := Run(c, s, calls);
    SettledLater(c, s, t, w);
    SharedIsExact(c, s, w, n);
    SharedIsExact(c, t, w, n);
    if Sound(c, s, n) {
      var h: nat :| Solid(c, s, n, h);
      SoundForth(c, s, t, w, n, h);
    }
    if Sound(c, t, n) {
      var h: nat :| Solid(c, t, n, h);
      SoundBack(c, s, t, w, n, h);
    }
  }

  // ---------- either mode ----------

  /** A reason why a request must fail: a transient asked for by reference, or a walk
      of the graph that ends badly. */
  ghost predicate Explains(c: Catalog, s: Store, n: Node, mode: Mode, e: Error)
    requires Closed(c, s.table) && n in c.nodes
  {
    || (mode == Reference && Effective(c, s, n).lifetime == Transient && e == TransientReference(n))
    || (exists p :: Exhibits(c, s, p, e) && p[0] == n)
  }

  lemma ErrorsAreExplained(c: Catalog, s: Store, w: set<Node>, n: Node, mode: Mode)
    requires Settled(c, s, w) && n in w && Request(c, s, {}, n, mode).Fail?
    ensures Explains(c, s, n, mode, Request(c, s, {}, n, mode).error)
  {
    RequestUnfold(c, s, {}, n, mode);
    RefUnfold(c, s, {}, n);
    LaterBind(c, s, s, w, n);
    var s1 := Bind(c, s, n);
    assert [] + [n] == [n] && Walk(c, s, [n]);
    hide ResolveShared, ResolveRef, Request, Settled, Grown, Walk;
    if mode == Shared {
      var p := FailureExhibited(c, s, s, w, [], {}, n);
    } else if s1.table[n].lifetime == Singleton {
      var p := FailureExhibited(c, s, s1, w, [], {}, n);
    }
  }

  lemma RequestIsExact(c: Catalog, s: Store, w: set<Node>, n: Node, mode: Mode)
    requires Settled(c, s, w) && n in w
    ensures Request(c, s, {}, n, mode).Ok? <==>
              !Hopeless(c, s, n) && (mode == Reference ==> Effective(c, s, n).lifetime == Singleton)
    ensures Request(c, s, {}, n, mode).Fail? ==> Explains(c, s, n, mode, Request(c, s, {}, n, mode).error)
  {
    if Request(c, s, {}, n, mode).Fail? { ErrorsAreExplained(c, s, w, n, mode); }
    hide Explains;
    SelfBacked(c, s, w);
    RequestSound(c, s, s, w, {}, n, mode);
    SharedIsExact(c, s, w, n);
    RequestUnfold(c, s, {}, n, mode);
    RefUnfold(c, s, {}, n);
    LaterBind(c, s, s, w, n);
    var s1 := Bind(c, s, n);
    SettledLater(c, s, s1, w);
    SharedIsExact(c, s1, w, n);
    if Sound(c, s, n) {
      var h: nat :| Solid(c, s, n, h);
      SoundForth(c, s, s1, w, n, h);
    }
    hide ResolveShared, ResolveRef, Request, Solid, Settled, Grown, Hopeless;
  }

  lemma SelfBacked(c: Catalog, s: Store, w: set<Node>)
    requires Settled(c, s, w)
    ensures Later(c, s, s, w) && Backed(c, s, s, w)
  {
    forall m | m in w && IsLeaf(s, m) ensures Sound(c, s, m) { assert Solid(c, s, m, 0); }
  }

  /** A top-level request, in either mode, succeeds exactly when nothing bad is
      reachable from the service, and by reference only for singletons; the error it
      reports is explained by the graph.  Only the presence tests of what the service
      depends on have to be settled. */
  lemma ResolutionIsExact(c: Catalog, s: Store, n: Node, mode: Mode)
    requires SettledFrom(c, s, n) && n in c.nodes
    ensures Request(c, s, {}, n, mode).Ok? <==>
              !Hopeless(c, s, n) && (mode == Reference ==> Effective(c, s, n).lifetime == Singleton)
    ensures Request(c, s, {}, n, mode).Fail? ==> Explains(c, s, n, mode, Request(c, s, {}, n, mode).error)
  {
    ReachIsSettled(c, s, n);
    hide *;
    RequestIsExact(c, s, Reach(c, s, n), n, mode);
  }

  lemma RequestHistory(c: Catalog, s: Store, w: set<Node>, calls: seq<Call>, n: Node, mode: Mode)
    requires Settled(c, s, w) && n in w
    requires forall i :: 0 <= i < |calls| ==> calls[i].node in c.nodes
    ensures Request(c, Run(c, s, calls), {}, n, mode).Ok? <==> Request(c, s, {}, n, mode).Ok?
  {
    SelfBacked(c, s, w);
    RunBacked(c, s, s, w, calls);
    var t := Run(c, s, calls);
    SettledLater(c, s, t, w);
    LaterSame(c, s, t, w, n);
    SharedHistory(c, s, w, calls, n);
    SharedIsExact(c, s, w, n);
    SharedIsExact(c, t, w, n);
    RequestIsExact(c, s, w, n, mode);
    RequestIsExact(c, t, w, n, mode);
    hide *;
  }

  /** Whether a request succeeds, in either mode, does not depend on what was
      resolved before it, in either mode and successfully or not; the earlier requests
      may be for any services, settled or not. */
  lemma HistoryDoesNotMatter(c: Catalog, s: Store, calls: seq<Call>, n: Node, mode: Mode)
    requires SettledFrom(c, s, n) && n in c.nodes
    requires forall i :: 0 <= i < |calls| ==> calls[i].node in c.nodes
    ensures Request(c, Run(c, s, calls), {}, n, mode).Ok? <==> Request(c, s, {}, n, mode).Ok?
  {
    ReachIsSettled(c, s, n);
    hide SettledFrom, Settled, Reach, Request, Run;
    RequestHistory(c, s, Reach(c, s, n), calls, n, mode);
  }

  // ---------- when history does matter ----------

  ghost predicate Buildable(c: Catalog, s: Store, n: Node, mode: Mode)
    requires Closed(c, s.table) && n in c.nodes
  {
    !Hopeless(c, s, n) && (mode == Reference ==> Effective(c, s, n).lifetime == Singleton)
  }

  ghost predicate Known(c: Catalog, calls: seq<Call>) {
    forall i :: 0 <= i < |calls| ==> calls[i].node in c.nodes
  }

  lemma ExactAfter(c: Catalog, s: Store, calls: seq<Call>, n: Node, mode: Mode)
    requires SettledFrom(c, s, n) && n in c.nodes && Known(c, calls)
    ensures Request(c, Run(c, s, calls), {}, n, mode).Ok? <==> Buildable(c, s, n, mode)
  {
    HistoryDoesNotMatter(c, s, calls, n, mode);
    ResolutionIsExact(c, s, n, mode);
    hide Hopeless, Effective, Run, Request, SettledFrom;
  }

  /** Exactly what one request does to another service: after a history that starts
      with a request for `p`, successful or not, `n` resolves if and only if nothing
      bad is reachable from it in the graph that has `p` bound.  That graph may have
      more edges than the one before (`n` breaks) or other ones (`n` is repaired). */
  lemma OneRequestDecides(c: Catalog, s: Store, calls: seq<Call>, n: Node, mode: Mode)
    requires Closed(c, s.table) && n in c.nodes && calls != [] && Known(c, calls)
    requires SettledFrom(c, Bind(c, s, calls[0].node), n)
    ensures Closed(c, Bind(c, s, calls[0].node).table)
    ensures Request(c, Run(c, s, calls), {}, n, mode).Ok? <==> Buildable(c, Bind(c, s, calls[0].node), n, mode)
  {
    BoundFirst(c, s, calls);
    hide SettledFrom, Run, Request, Buildable, Grown, Bind, Closed, Known;
    ExactAfter(c, Bind(c, s, calls[0].node), calls, n, mode);
  }

  /** Binding what is requested first makes no difference. */
  lemma BoundFirst(c: Catalog, s: Store, calls: seq<Call>)
    requires Closed(c, s.table) && calls != [] && Known(c, calls)
    ensures Closed(c, Bind(c, s, calls[0].node).table)
    ensures Run(c, s, calls) == Run(c, Bind(c, s, calls[0].node), calls)
  {
    var p, mode := calls[0].node, calls[0].mode;
    BindGrown(c, s, p);
    var t := Bind(c, s, p);
    RequestUnfold(c, s, {}, p, mode);
    RequestUnfold(c, t, {}, p, mode);
    SharedUnfold(c, s, {}, p);
    SharedUnfold(c, t, {}, p);
    RefUnfold(c, s, {}, p);
    RefUnfold(c, t, {}, p);
    assert Bind(c, t, p) == t;
    hide ResolveShared, ResolveRef, Request, RunSteps;
    assert Request(c, s, {}, p, mode) == Request(c, t, {}, p, mode);
  }

  /** In particular, if `n` would ask for `p` as soon as that has a binding, and `p`
      does not resolve, then one request for `p` breaks `n`. */
  lemma OneRequestBreaksAnother(c: Catalog, s: Store, n: Node, p: Node, mode: Mode)
    requires Closed(c, s.table) && n in c.nodes && p in c.nodes && p !in s.table && !IsLeaf(s, n)
    requires SettledFrom(c, Bind(c, s, p), n) && Needs(c, Bind(c, s, p), n, p, mode)
    requires ResolveShared(c, s, {}, p).Fail?
    ensures ResolveShared(c, Run(c, s, [Call(p, Shared)]), {}, n).Fail?
  {
    var t := Bind(c, s, p);
    assert !IsLeaf(t, n) && Edge(c, t, n, p);
    ReachIsSettled(c, t, n);
    var w := Reach(c, t, n);
    assert p in w;
    SharedUnfold(c, s, {}, p);
    SharedUnfold(c, t, {}, p);
    assert Bind(c, t, p) == t;
    OneRequestDecides(c, s, [Call(p, Shared)], n, Shared);
    RequestUnfold(c, Run(c, s, [Call(p, Shared)]), {}, n, Shared);
    SharedIsExact(c, t, w, p);
    SharedIsExact(c, t, w, n);
    hide ResolveShared, Request, RunSteps, SettledFrom, Settled, Run, Reach;
    if Sound(c, t, n) {
      var h: nat :| Solid(c, t, n, h);
      SolidStep(c, t, n, p, h);
    }
  }
}
