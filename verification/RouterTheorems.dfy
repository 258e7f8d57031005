/** Nested routers: what matches and what is reported as allowed agree. */
module RouterTheorems {
  import opened Wrappers
  import opened Router
  import opened Text

  /** `subs` are the sub-routers with their prefixes, in the order they were added. */
  datatype Tree<H> = Tree(root: Node<H>, subs: seq<(string, Tree<H>)>)

  datatype Routed<H> = Routed(handler: H, params: map<string, string>)

  function UpperChar(c: char): char {
    if 'a' <= c <= 'z' then (c as int - 'a' as int + 'A' as int) as char else c
  }

  function Upper(s: string): string { seq(|s|, i requires 0 <= i < |s| => UpperChar(s[i])) }

  lemma UpperTwice(s: string)
    ensures Upper(Upper(s)) == Upper(s)
  {}

  predicate PrefixMatches(path: string, prefix: string) {
    prefix == "" || (prefix <= path && (|path| == |prefix| || path[|prefix|] == '/'))
  }

  function ParamMap(captures: Captures): map<string, string> {
    if captures == [] then map[]
    else ParamMap(captures[..|captures| - 1])[captures[|captures| - 1].0 := captures[|captures| - 1].1]
  }

  function RootMatch<H>(root: Node<H>, key: string, path: string): Option<Routed<H>> {
    match MatchAt(root, key, path)
    case None => None
    case Some(f) => Some(Routed(f.handler, ParamMap(f.captures)))
  }

  // ---------- match ----------

  /** `norm` turns a request path into the form paths are stored in. */
  function MatchTree<H>(norm: string -> string, t: Tree<H>, method': string, path: string): Option<Routed<H>>
    decreases t, |t.subs| + 1
  {
    var key, p := Upper(method'), norm(path);
    var r := MatchSubs(norm, t, key, p, 0);
    if r.Some? then r else RootMatch(t.root, key, p)
  }

  function MatchSubs<H>(norm: string -> string, t: Tree<H>, key: string, p: string, i: nat): Option<Routed<H>>
    requires i <= |t.subs|
    decreases t, |t.subs| - i
  {
    if i == |t.subs| then None
    else
      var (prefix, sub) := t.subs[i];
      assert t.subs[i].1 == sub;
      var r := if PrefixMatches(p, prefix) then MatchTree(norm, sub, key, p[|prefix|..]) else None;
      if r.Some? then r else MatchSubs(norm, t, key, p, i + 1)
  }

  method CollectParams(captures: Captures) returns (params: map<string, string>)
    ensures params == ParamMap(captures)
  {
    params := map[];
    var i := 0;
    while i < |captures|
      invariant 0 <= i <= |captures| && params == ParamMap(captures[..i])
    {
      assert captures[..i + 1][..i] == captures[..i];
      params := params[captures[i].0 := captures[i].1];
      i := i + 1;
    }
    assert captures[..i] == captures;
  }

  method MatchRequest<H>(norm: string -> string, t: Tree<H>, method': string, path: string)
      returns (r: Option<Routed<H>>)
    ensures r == MatchTree(norm, t, method', path)
    decreases t
  {
    var key, p := Upper(method'), norm(path);
    hide MatchAt, Upper, ParamMap;
    var i := 0;
    while i < |t.subs|
      invariant 0 <= i <= |t.subs| && MatchSubs(norm, t, key, p, i) == MatchSubs(norm, t, key, p, 0)
    {
      var (prefix, sub) := t.subs[i];
      if PrefixMatches(p, prefix) {
        assert t.subs[i].1 == sub;
        r := MatchRequest(norm, sub, key, p[|prefix|..]);
        if r.Some? {
          return;
        }
      }
      i := i + 1;
    }
    var found := Match(t.root, key, p);
    if found.Some? {
      var params := CollectParams(found.value.captures);
      return Some(Routed(found.value.handler, params));
    }
    return None;
  }

  // ---------- allowed_methods ----------

  const WILDCARD_METHODS: seq<string> := ["DELETE", "GET", "HEAD", "OPTIONS", "PATCH", "POST", "PUT"]

  function Elements(s: seq<string>): set<string> { set x | x in s }

  /** What a node lists: a handler for GET implies HEAD. */
  function Listed<H>(handlers: map<string, H>): set<string> {
    if "*" in handlers then Elements(WILDCARD_METHODS)
    else handlers.Keys + if "GET" in handlers then {"HEAD"} else {}
  }

  function RootAllowed<H>(root: Node<H>, p: string): set<string> {
    match Walk(root, p, [])
    case None => {}
    case Some(r) => Listed(r.node.handlers)
  }

  function Allowed<H>(norm: string -> string, t: Tree<H>, path: string): set<string>
    decreases t, |t.subs| + 1
  {
    var p := norm(path);
    var s := AllowedSubs(norm, t, p, 0);
    if s != {} then s else RootAllowed(t.root, p)
  }

  /** The first sub-router with anything to offer decides alone. */
  function AllowedSubs<H>(norm: string -> string, t: Tree<H>, p: string, i: nat): set<string>
    requires i <= |t.subs|
    decreases t, |t.subs| - i
  {
    if i == |t.subs| then {}
    else
      var (prefix, sub) := t.subs[i];
      assert t.subs[i].1 == sub;
      var s := if PrefixMatches(p, prefix) then Allowed(norm, sub, p[|prefix|..]) else {};
      if s != {} then s else AllowedSubs(norm, t, p, i + 1)
  }

  // ---------- sorted lists of names ----------

  predicate Less(a: string, b: string) {
    b != "" && (a == "" || a[0] < b[0] || (a[0] == b[0] && Less(a[1..], b[1..])))
  }

  lemma {:induction false} LessTotal(a: string, b: string)
    requires a != b
    ensures Less(a, b) || Less(b, a)
  {
    if a != "" && b != "" && a[0] == b[0] {
      assert a == [a[0]] + a[1..] && b == [b[0]] + b[1..];
      LessTotal(a[1..], b[1..]);
    }
  }

  lemma {:induction false} LessTransitive(a: string, b: string, c: string)
    requires Less(a, b) && Less(b, c)
    ensures Less(a, c)
  {
    if a != "" && a[0] == b[0] && b[0] == c[0] {
      LessTransitive(a[1..], b[1..], c[1..]);
    }
  }

  ghost predicate Sorted(s: seq<string>) {
    forall i, j :: 0 <= i < j < |s| ==> Less(s[i], s[j])
  }

  /** A sorted list without duplicates, with `x` in its place. */
  function Insert(s: seq<string>, x: string): seq<string> {
    if s == [] then [x]
    else if x == s[0] then s
    else if Less(x, s[0]) then [x] + s
    else [s[0]] + Insert(s[1..], x)
  }

  lemma {:induction false} InsertElements(s: seq<string>, x: string, y: string)
    ensures y in Insert(s, x) <==> y == x || y in s
  {
    if s != [] && x != s[0] && !Less(x, s[0]) {
      InsertElements(s[1..], x, y);
    }
  }

  lemma {:induction false} InsertSorted(s: seq<string>, x: string)
    requires Sorted(s)
    ensures Sorted(Insert(s, x))
  {
    if s != [] && x != s[0] {
      if Less(x, s[0]) {
        forall i | 0 < i < |s| ensures Less(x, s[i]) { LessTransitive(x, s[0], s[i]); }
      } else {
        LessTotal(x, s[0]);
        var t := Insert(s[1..], x);
        InsertSorted(s[1..], x);
        forall i | 0 <= i < |t| ensures Less(s[0], t[i]) {
          InsertElements(s[1..], x, t[i]);
          if t[i] in s[1..] {
            var k :| 0 <= k < |s[1..]| && s[1..][k] == t[i];
            assert s[k + 1] == t[i];
          }
        }
      }
    }
  }

  method SortNames(names: set<string>) returns (out: seq<string>)
    ensures Sorted(out) && Elements(out) == names
  {
    out := [];
    var todo := names;
    while todo != {}
      invariant todo <= names && Sorted(out) && forall y :: y in out <==> y in names && y !in todo
      decreases todo
    {
      var x :| x in todo;
      InsertSorted(out, x);
      forall y ensures y in Insert(out, x) <==> y == x || y in out { InsertElements(out, x, y); }
      out := Insert(out, x);
      todo := todo - {x};
    }
  }

  lemma WildcardsSorted()
    ensures Sorted(WILDCARD_METHODS)
  {
    var w := WILDCARD_METHODS;
    assert forall i :: 0 <= i < 6 ==> Less(w[i], w[i + 1]);
    forall i, j | 0 <= i < j < |w| ensures Less(w[i], w[j]) { LessAlong(w, i, j); }
  }

  lemma {:induction false} LessAlong(w: seq<string>, i: nat, j: nat)
    requires i < j < |w| && forall k :: 0 <= k < |w| - 1 ==> Less(w[k], w[k + 1])
    ensures Less(w[i], w[j])
    decreases j
  {
    if i < j - 1 {
      LessAlong(w, i, j - 1);
      LessTransitive(w[i], w[j - 1], w[j]);
    }
  }

  method AllowedMethods<H>(norm: string -> string, t: Tree<H>, path: string) returns (methods: seq<string>)
    ensures Elements(methods) == Allowed(norm, t, path) && Sorted(methods)
    decreases t
  {
    var p := norm(path);
    hide Sorted, Walk, Listed;
    var i := 0;
    while i < |t.subs|
      invariant 0 <= i <= |t.subs| && AllowedSubs(norm, t, p, i) == AllowedSubs(norm, t, p, 0)
    {
      var (prefix, sub) := t.subs[i];
      if PrefixMatches(p, prefix) {
        assert t.subs[i].1 == sub;
        methods := AllowedMethods(norm, sub, p[|prefix|..]);
        if methods != [] {
          assert methods[0] in Elements(methods);
          return;
        }
      }
      i := i + 1;
    }
    var node := MatchNode(t.root, p);
    if node.None? {
      methods := SortNames({});
    } else {
      methods := ListMethods(node.value.handlers);
    }
  }

  method ListMethods<H>(handlers: map<string, H>) returns (methods: seq<string>)
    ensures Elements(methods) == Listed(handlers) && Sorted(methods)
  {
    if "*" in handlers {
      WildcardsSorted();
      return WILDCARD_METHODS;
    }
    var names := handlers.Keys;
    if "GET" in names && "HEAD" !in names {
      names := names + {"HEAD"};
    }
    methods := SortNames(names);
  }

  // ---------- registration ----------

  /** Keys are upper case and not empty, and a handler for all methods stands alone. */
  ghost predicate GoodHandlers<H>(handlers: map<string, H>) {
    && (forall k :: k in handlers ==> k != "" && Upper(k) == k)
    && ("*" in handlers ==> handlers.Keys == {"*"})
  }

  datatype Registration<H> = Registered(handlers: map<string, H>) | EmptyMethod | Duplicate

  /** The method rules of `add_route` at the node a pattern leads to. */
  function Register<H>(handlers: map<string, H>, method': string, h: H): Registration<H> {
    var key := if method' == "*" then "*" else Upper(method');
    if key == "" then EmptyMethod
    else if (if key == "*" then handlers != map[] else key in handlers || "*" in handlers) then Duplicate
    else Registered(handlers[key := h])
  }

  /** Registration keeps the rules, never replaces a handler, and makes the new one reachable. */
  lemma RegistrationKeepsRules<H>(handlers: map<string, H>, method': string, h: H)
    requires GoodHandlers(handlers)
    ensures var r := Register(handlers, method', h);
            r.Registered? ==>
              && GoodHandlers(r.handlers)
              && (forall k :: k in handlers ==> k in r.handlers && r.handlers[k] == handlers[k])
              && Handler(r.handlers, Upper(method')) == Some(h)
  {
    UpperTwice(method');
    assert Upper("*") == "*";
    hide Upper;
  }

  ghost predicate GoodNode<H>(n: Node<H>) {
    GoodHandlers(n.handlers) && forall i :: 0 <= i < |n.children| ==> GoodNode(n.children[i])
  }

  ghost predicate GoodTree<H>(t: Tree<H>) {
    GoodNode(t.root) && forall i :: 0 <= i < |t.subs| ==> GoodTree(t.subs[i].1)
  }

  lemma {:induction false} WalkStaysGood<H>(node: Node<H>, path: string, captures: Captures)
    requires GoodNode(node) && Walk(node, path, captures).Some?
    ensures GoodNode(Walk(node, path, captures).value.node)
    decreases node, |path|
  {
    if path != "" {
      WalkUnfold(node, path, captures);
      if path[0] == '/' {
        WalkStaysGood(node, path[1..], captures);
      } else {
        var child := Choose(node.children, path).value;
        var i :| 0 <= i < |node.children| && node.children[i] == child;
        WalkStaysGood(child, Beyond(child, path), captures + Captured(child, path));
      }
    }
  }

  // ---------- coherence ----------

  lemma HandlerListed<H>(handlers: map<string, H>, key: string)
    requires Handler(handlers, key).Some?
    ensures Listed(handlers) != {}
  {
    if "*" in handlers {
      assert WILDCARD_METHODS[0] in Elements(WILDCARD_METHODS);
    } else {
      assert key in Listed(handlers);
    }
  }

  lemma WildcardsAreUpper(m: string)
    requires m in WILDCARD_METHODS
    ensures Upper(m) == m
  {
    assert forall i, j :: 0 <= i < |WILDCARD_METHODS| && 0 <= j < |WILDCARD_METHODS[i]| ==>
        'A' <= WILDCARD_METHODS[i][j] <= 'Z';
  }

  lemma ListedHandled<H>(handlers: map<string, H>, m: string)
    requires GoodHandlers(handlers) && m in Listed(handlers)
    ensures Upper(m) == m
    ensures Handler(handlers, m).Some? || (m == "HEAD" && "GET" in Listed(handlers))
  {
    WildcardsAreUpper("HEAD");
    if "*" in handlers { WildcardsAreUpper(m); }
    hide Upper;
  }

  /** Whatever matches, something is allowed. */
  lemma {:induction false} MatchIsAllowed<H>(norm: string -> string, t: Tree<H>, m: string, path: string)
    requires MatchTree(norm, t, m, path).Some?
    ensures Allowed(norm, t, path) != {}
    decreases t, |t.subs| + 1
  {
    var key, p := Upper(m), norm(path);
    if MatchSubs(norm, t, key, p, 0).Some? {
      SubMatchIsAllowed(norm, t, key, p, 0);
    } else {
      HandlerListed(Walk(t.root, p, []).value.node.handlers, key);
    }
  }

  lemma {:induction false} SubMatchIsAllowed<H>(norm: string -> string, t: Tree<H>, key: string, p: string, i: nat)
    requires i <= |t.subs| && MatchSubs(norm, t, key, p, i).Some?
    ensures AllowedSubs(norm, t, p, i) != {}
    decreases t, |t.subs| - i
  {
    var (prefix, sub) := t.subs[i];
    assert t.subs[i].1 == sub;
    if PrefixMatches(p, prefix) && MatchTree(norm, sub, key, p[|prefix|..]).Some? {
      MatchIsAllowed(norm, sub, key, p[|prefix|..]);
    } else {
      SubMatchIsAllowed(norm, t, key, p, i + 1);
    }
  }

  /** Every listed method matches, except a HEAD that is listed because GET is. */
  lemma {:induction false} AllowedMatches<H>(norm: string -> string, t: Tree<H>, m: string, path: string)
    requires GoodTree(t) && m in Allowed(norm, t, path)
    ensures Upper(m) == m
    ensures MatchTree(norm, t, m, path).Some? || (m == "HEAD" && "GET" in Allowed(norm, t, path))
    decreases t, |t.subs| + 1
  {
    var p := norm(path);
    if AllowedSubs(norm, t, p, 0) != {} {
      SubAllowedMatches(norm, t, m, p, 0);
    } else {
      WalkStaysGood(t.root, p, []);
      ListedHandled(Walk(t.root, p, []).value.node.handlers, m);
    }
  }

  lemma {:induction false} SubAllowedMatches<H>(norm: string -> string, t: Tree<H>, m: string, p: string, i: nat)
    requires GoodTree(t) && i <= |t.subs| && m in AllowedSubs(norm, t, p, i)
    ensures Upper(m) == m
    ensures MatchSubs(norm, t, m, p, i).Some? || (m == "HEAD" && "GET" in AllowedSubs(norm, t, p, i))
    decreases t, |t.subs| - i
  {
    var (prefix, sub) := t.subs[i];
    assert t.subs[i].1 == sub;
    if PrefixMatches(p, prefix) && Allowed(norm, sub, p[|prefix|..]) != {} {
      AllowedMatches(norm, sub, m, p[|prefix|..]);
    } else {
      SubAllowedMatches(norm, t, m, p, i + 1);
    }
  }

  /** For every nest of routers and every path: nothing is allowed exactly when
      nothing matches, so a request is answered "not found" exactly when no method
      would have been served there, and "method not allowed" otherwise. */
  lemma AllowedIffMatched<H>(norm: string -> string, t: Tree<H>, path: string)
    requires GoodTree(t)
    ensures Allowed(norm, t, path) == {} <==> forall m :: MatchTree(norm, t, m, path).None?
  {
    if Allowed(norm, t, path) == {} {
      forall m ensures MatchTree(norm, t, m, path).None? {
        if MatchTree(norm, t, m, path).Some? { MatchIsAllowed(norm, t, m, path); }
      }
    } else {
      var m :| m in Allowed(norm, t, path);
      AllowedMatches(norm, t, m, path);
      if MatchTree(norm, t, m, path).None? {
        AllowedMatches(norm, t, "GET", path);
      }
    }
  }

  // ---------- how complete the list is ----------

  /** The handler tables a path leads to, sub-routers first, in the order they are asked. */
  function Ends<H>(norm: string -> string, t: Tree<H>, path: string): seq<map<string, H>>
    decreases t, |t.subs| + 1
  {
    SubEnds(norm, t, norm(path), 0) + RootEnds(t.root, norm(path))
  }

  function SubEnds<H>(norm: string -> string, t: Tree<H>, p: string, i: nat): seq<map<string, H>>
    requires i <= |t.subs|
    decreases t, |t.subs| - i
  {
    if i == |t.subs| then []
    else
      var (prefix, sub) := t.subs[i];
      assert t.subs[i].1 == sub;
      (if PrefixMatches(p, prefix) then Ends(norm, sub, p[|prefix|..]) else []) + SubEnds(norm, t, p, i + 1)
  }

  function RootEnds<H>(root: Node<H>, p: string): seq<map<string, H>> {
    match Walk(root, p, [])
    case None => []
    case Some(r) => [r.node.handlers]
  }

  ghost predicate Serves<H>(ends: seq<map<string, H>>, key: string) {
    exists i :: 0 <= i < |ends| && Handler(ends[i], key).Some?
  }

  lemma ServesEither<H>(a: seq<map<string, H>>, b: seq<map<string, H>>, key: string)
    ensures Serves(a + b, key) <==> Serves(a, key) || Serves(b, key)
  {
    hide Handler;
    if Serves(a, key) {
      var i :| 0 <= i < |a| && Handler(a[i], key).Some?;
      assert (a + b)[i] == a[i];
    }
    if Serves(b, key) {
      var i :| 0 <= i < |b| && Handler(b[i], key).Some?;
      assert (a + b)[|a| + i] == b[i];
    }
  }

  lemma RootServes<H>(root: Node<H>, key: string, p: string)
    ensures RootMatch(root, key, p).Some? <==> Serves(RootEnds(root, p), key)
  {
    var r := Walk(root, p, []);
    if r.Some? {
      assert RootEnds(root, p)[0] == r.value.node.handlers;
    }
    hide Handler, Walk;
  }

  /** The handler of the first table that serves the method. */
  function FirstServing<H>(ends: seq<map<string, H>>, key: string): Option<H> {
    if ends == [] then None
    else if Handler(ends[0], key).Some? then Handler(ends[0], key)
    else FirstServing(ends[1..], key)
  }

  lemma {:induction false} FirstServingEither<H>(a: seq<map<string, H>>, b: seq<map<string, H>>, key: string)
    ensures FirstServing(a + b, key) == if FirstServing(a, key).Some? then FirstServing(a, key)
        else FirstServing(b, key)
  {
    hide Handler;
    if a == [] {
      assert a + b == b;
    } else {
      assert (a + b)[0] == a[0] && (a + b)[1..] == a[1..] + b;
      FirstServingEither(a[1..], b, key);
    }
  }

  function HandlerOf<H>(r: Option<Routed<H>>): Option<H> { if r.None? then None else Some(r.value.handler) }

  lemma RootServesFirst<H>(root: Node<H>, key: string, p: string)
    ensures HandlerOf(RootMatch(root, key, p)) == FirstServing(RootEnds(root, p), key)
  {
    var ends := RootEnds(root, p);
    if ends != [] { assert ends[1..] == []; }
    hide Handler, Walk;
  }

  /** A request goes to the first handler table on its path that serves the method:
      sub-routers in the order they were added, innermost first, and the own routes last. */
  lemma {:induction false} FirstTableDecides<H>(norm: string -> string, t: Tree<H>, m: string, path: string)
    ensures HandlerOf(MatchTree(norm, t, m, path)) == FirstServing(Ends(norm, t, path), Upper(m))
    decreases t, |t.subs| + 1
  {
    var p := norm(path);
    UpperTwice(m);
    FirstSubDecides(norm, t, Upper(m), p, 0);
    RootServesFirst(t.root, Upper(m), p);
    FirstServingEither(SubEnds(norm, t, p, 0), RootEnds(t.root, p), Upper(m));
    hide MatchSubs, SubEnds, RootMatch, RootEnds, FirstServing, Upper;
  }

  lemma {:induction false} FirstSubDecides<H>(norm: string -> string, t: Tree<H>, key: string, p: string, i: nat)
    requires i <= |t.subs|
    ensures Upper(key) == key ==> HandlerOf(MatchSubs(norm, t, key, p, i)) == FirstServing(SubEnds(norm, t, p, i), key)
    decreases t, |t.subs| - i
  {
    if i < |t.subs| {
      var (prefix, sub) := t.subs[i];
      assert t.subs[i].1 == sub;
      var here := if PrefixMatches(p, prefix) then Ends(norm, sub, p[|prefix|..]) else [];
      if PrefixMatches(p, prefix) {
        FirstTableDecides(norm, sub, key, p[|prefix|..]);
      }
      FirstSubDecides(norm, t, key, p, i + 1);
      FirstServingEither(here, SubEnds(norm, t, p, i + 1), key);
      hide FirstServing, Ends;
    }
  }

  /** A prefix stands for whole segments of the path. */
  lemma PrefixIsWholeSegments(path: string, prefix: string)
    ensures PrefixMatches(path, prefix) <==> prefix == "" || path == prefix || (prefix + "/") <= path
  {
    if prefix <= path && |path| > |prefix| && path[|prefix|] == '/' {
      assert path[..|prefix| + 1] == prefix + "/";
    }
    if (prefix + "/") <= path {
      assert path[..|prefix|] == prefix && path[|prefix|] == (prefix + "/")[|prefix|];
    }
  }

  lemma UpperIgnoresCase(a: string, b: string)
    ensures Upper(a) == Upper(b) <==> SameIgnoringCase(a, b)
  {
    if Upper(a) == Upper(b) {
      assert |Upper(a)| == |a| && |Upper(b)| == |b|;
      forall i | 0 <= i < |a| ensures SameLetter(a[i], b[i]) {
        assert Upper(a)[i] == UpperChar(a[i]) && Upper(b)[i] == UpperChar(b[i]);
      }
    }
  }

  /** The case in which a method is written makes no difference. */
  lemma MethodsIgnoreCase<H>(norm: string -> string, t: Tree<H>, m: string, m': string, path: string)
    requires SameIgnoringCase(m, m')
    ensures MatchTree(norm, t, m, path) == MatchTree(norm, t, m', path)
  {
    UpperIgnoresCase(m, m');
    hide Upper, SameIgnoringCase;
  }

  /** A method matches exactly when one of the tables serves it. */
  lemma {:induction false} MatchIsServed<H>(norm: string -> string, t: Tree<H>, m: string, path: string)
    ensures MatchTree(norm, t, m, path).Some? <==> Serves(Ends(norm, t, path), Upper(m))
    decreases t, |t.subs| + 1
  {
    var p := norm(path);
    SubMatchIsServed(norm, t, Upper(m), p, 0);
    UpperTwice(m);
    RootServes(t.root, Upper(m), p);
    ServesEither(SubEnds(norm, t, p, 0), RootEnds(t.root, p), Upper(m));
    hide MatchSubs, SubEnds, RootMatch, RootEnds, Serves, Upper;
  }

  lemma {:induction false} SubMatchIsServed<H>(norm: string -> string, t: Tree<H>, key: string, p: string, i: nat)
    requires i <= |t.subs|
    ensures Upper(key) == key ==> (MatchSubs(norm, t, key, p, i).Some? <==> Serves(SubEnds(norm, t, p, i), key))
    decreases t, |t.subs| - i
  {
    if i < |t.subs| {
      var (prefix, sub) := t.subs[i];
      assert t.subs[i].1 == sub;
      var here := if PrefixMatches(p, prefix) then Ends(norm, sub, p[|prefix|..]) else [];
      if PrefixMatches(p, prefix) {
        MatchIsServed(norm, sub, key, p[|prefix|..]);
      }
      SubMatchIsServed(norm, t, key, p, i + 1);
      ServesEither(here, SubEnds(norm, t, p, i + 1), key);
      hide Serves, Ends, MatchTree, Upper;
    } else {
      assert SubEnds(norm, t, p, i) == [];
    }
  }

  function As(n: nat): string { seq(n, _ => 'A') }

  /** There is always one more method name. */
  lemma {:induction false} FreshMethod(names: set<string>) returns (n: nat)
    ensures forall k: nat :: k >= n ==> As(k) !in names
    decreases names
  {
    n := 0;
    if names != {} {
      var x :| x in names;
      var k := FreshMethod(names - {x});
      n := if k > |x| then k else |x| + 1;
      forall j: nat | j >= n ensures As(j) !in names { assert |As(j)| != |x|; }
    }
  }

  /** The list names every method that matches. */
  ghost predicate Complete<H>(norm: string -> string, t: Tree<H>, path: string) {
    forall m :: MatchTree(norm, t, m, path).Some? ==> Upper(m) in Allowed(norm, t, path)
  }

  /** Exactly when the list is complete: every table the path leads to, not just the
      one that decides the list, keeps to listed methods and has no handler for all. */
  lemma ListIsComplete<H>(norm: string -> string, t: Tree<H>, path: string)
    requires GoodTree(t)
    ensures Complete(norm, t, path) <==>
              forall i :: 0 <= i < |Ends(norm, t, path)| ==>
                "*" !in Ends(norm, t, path)[i] && Ends(norm, t, path)[i].Keys <= Allowed(norm, t, path)
  {
    var ends, allowed := Ends(norm, t, path), Allowed(norm, t, path);
    EndsAreGood(norm, t, path);
    if Complete(norm, t, path) {
      forall i | 0 <= i < |ends| ensures "*" !in ends[i] && ends[i].Keys <= allowed {
        assert GoodHandlers(ends[i]);
        CompleteMeans(norm, t, path, i);
      }
    }
    if forall i :: 0 <= i < |ends| ==> "*" !in ends[i] && ends[i].Keys <= allowed {
      forall m | MatchTree(norm, t, m, path).Some? ensures Upper(m) in allowed {
        MatchIsServed(norm, t, m, path);
      }
    }
  }

  lemma CompleteMeans<H>(norm: string -> string, t: Tree<H>, path: string, i: nat)
    requires Complete(norm, t, path) && i < |Ends(norm, t, path)| && GoodHandlers(Ends(norm, t, path)[i])
    ensures "*" !in Ends(norm, t, path)[i] && Ends(norm, t, path)[i].Keys <= Allowed(norm, t, path)
  {
    var end := Ends(norm, t, path)[i];
    forall k | k in end ensures k in Allowed(norm, t, path) {
      assert Upper(k) == k && Handler(end, k).Some?;
      MatchIsServed(norm, t, k, path);
    }
    if "*" in end {
      var n := FreshMethod(Allowed(norm, t, path));
      assert Upper(As(n)) == As(n) && Handler(end, As(n)).Some?;
      MatchIsServed(norm, t, As(n), path);
    }
  }

  lemma {:induction false} EndsAreGood<H>(norm: string -> string, t: Tree<H>, path: string)
    requires GoodTree(t)
    ensures forall i :: 0 <= i < |Ends(norm, t, path)| ==> GoodHandlers(Ends(norm, t, path)[i])
    decreases t, |t.subs| + 1
  {
    SubEndsAreGood(norm, t, norm(path), 0);
    if Walk(t.root, norm(path), []).Some? {
      WalkStaysGood(t.root, norm(path), []);
    }
    hide GoodHandlers, Walk, SubEnds;
  }

  lemma {:induction false} SubEndsAreGood<H>(norm: string -> string, t: Tree<H>, p: string, i: nat)
    requires GoodTree(t) && i <= |t.subs|
    ensures forall k :: 0 <= k < |SubEnds(norm, t, p, i)| ==> GoodHandlers(SubEnds(norm, t, p, i)[k])
    decreases t, |t.subs| - i
  {
    hide GoodHandlers;
    if i < |t.subs| {
      var (prefix, sub) := t.subs[i];
      assert t.subs[i].1 == sub;
      if PrefixMatches(p, prefix) {
        EndsAreGood(norm, sub, p[|prefix|..]);
      }
      SubEndsAreGood(norm, t, p, i + 1);
    }
  }

  /** A sub-router that serves GET hides that the root serves POST at the same path. */
  lemma ListCanMissAMethod(norm: string -> string, path: string)
    requires norm(path) == "" && norm("") == ""
    ensures var sub := Tree(Node("", Static, "", [], map["GET" := 1]), []);
            var t := Tree(Node("", Static, "", [], map["POST" := 2]), [("", sub)]);
            && GoodTree(t) && MatchTree(norm, t, "POST", path) == Some(Routed(2, map[]))
            && "POST" !in Allowed(norm, t, path) && "GET" in Allowed(norm, t, path)
  {
    var sub := Tree(Node("", Static, "", [], map["GET" := 1]), []);
    var t := Tree(Node("", Static, "", [], map["POST" := 2]), [("", sub)]);
    WildcardsAreUpper("GET");
    WildcardsAreUpper("POST");
    assert GoodNode(sub.root) && GoodNode(t.root) && GoodTree(sub);
    forall i | 0 <= i < |t.subs| ensures GoodTree(t.subs[i].1) {}
    assert t.subs[0].1 == sub;
    hide Upper, GoodNode;
    assert Allowed(norm, sub, ""[0..]) == {"GET", "HEAD"};
    assert AllowedSubs(norm, t, "", 0) == {"GET", "HEAD"};
    assert MatchTree(norm, sub, "POST", ""[0..]) == None;
    assert MatchSubs(norm, t, "POST", "", 1) == None;
    assert MatchSubs(norm, t, "POST", "", 0) == None;
  }

  // ---------- what exactly is listed ----------

  /** The first table that is not empty. */
  function FirstTable<H>(ends: seq<map<string, H>>): map<string, H> {
    if ends == [] then map[] else if ends[0] != map[] then ends[0] else FirstTable(ends[1..])
  }

  lemma {:induction false} FirstTableEither<H>(a: seq<map<string, H>>, b: seq<map<string, H>>)
    ensures FirstTable(a + b) == if FirstTable(a) != map[] then FirstTable(a) else FirstTable(b)
  {
    if a == [] {
      assert a + b == b;
    } else {
      assert (a + b)[0] == a[0] && (a + b)[1..] == a[1..] + b;
      FirstTableEither(a[1..], b);
    }
  }

  lemma ListedOfTable<H>(h: map<string, H>)
    ensures Listed(h) == {} <==> h == map[]
  {
    if "*" in h { assert WILDCARD_METHODS[0] in Elements(WILDCARD_METHODS); }
    if h != map[] && "*" !in h {
      var k :| k in h;
      assert k in Listed(h);
    }
  }

  lemma {:induction false} AllowedOfTable<H>(norm: string -> string, t: Tree<H>, path: string)
    ensures Allowed(norm, t, path) == Listed(FirstTable(Ends(norm, t, path)))
    decreases t, |t.subs| + 1
  {
    var p := norm(path);
    SubAllowedOfTable(norm, t, p, 0);
    FirstTableEither(SubEnds(norm, t, p, 0), RootEnds(t.root, p));
    ListedOfTable(FirstTable(SubEnds(norm, t, p, 0)));
    ListedOfTable<H>(map[]);
    var ends := RootEnds(t.root, p);
    if ends != [] { assert ends[1..] == []; }
    hide Listed, SubEnds, AllowedSubs;
  }

  lemma {:induction false} SubAllowedOfTable<H>(norm: string -> string, t: Tree<H>, p: string, i: nat)
    requires i <= |t.subs|
    ensures AllowedSubs(norm, t, p, i) == Listed(FirstTable(SubEnds(norm, t, p, i)))
    decreases t, |t.subs| - i
  {
    ListedOfTable<H>(map[]);
    if i < |t.subs| {
      var (prefix, sub) := t.subs[i];
      assert t.subs[i].1 == sub;
      var here := if PrefixMatches(p, prefix) then Ends(norm, sub, p[|prefix|..]) else [];
      if PrefixMatches(p, prefix) {
        AllowedOfTable(norm, sub, p[|prefix|..]);
      }
      SubAllowedOfTable(norm, t, p, i + 1);
      FirstTableEither(here, SubEnds(norm, t, p, i + 1));
      ListedOfTable(FirstTable(here));
      hide Listed, Ends;
    }
  }

  /** What is listed, method by method: the first handler table on the path that is not
      empty decides.  A handler for all methods stands for the seven usual ones, and
      HEAD comes with GET. */
  lemma ListIsExact<H>(norm: string -> string, t: Tree<H>, path: string, m: string)
    ensures var table := FirstTable(Ends(norm, t, path));
            m in Allowed(norm, t, path) <==>
              if "*" in table then m in ["GET", "HEAD", "POST", "PUT", "PATCH", "DELETE", "OPTIONS"]
              else m in table || (m == "HEAD" && "GET" in table)
  {
    AllowedOfTable(norm, t, path);
    hide Allowed, Ends, FirstTable;
  }

  /** The last place where a name is captured. */
  ghost predicate LastAt(captures: Captures, name: string, i: nat) {
    i < |captures| && captures[i].0 == name && forall j :: i < j < |captures| ==> captures[j].0 != name
  }

  /** A name stands for the last value captured under it. */
  lemma {:induction false} LastCaptureWins(captures: Captures, name: string, i: nat)
    requires LastAt(captures, name, i)
    ensures name in ParamMap(captures) && ParamMap(captures)[name] == captures[i].1
    decreases |captures|
  {
    var front := captures[..|captures| - 1];
    if i < |front| {
      assert captures[|captures| - 1].0 != name;
      assert LastAt(front, name, i);
      LastCaptureWins(front, name, i);
    }
  }

  /** No name occurs that was not captured. */
  lemma {:induction false} OnlyCapturedNames(captures: Captures, name: string)
    requires name in ParamMap(captures)
    ensures exists i: nat :: LastAt(captures, name, i)
    decreases |captures|
  {
    var n := |captures| - 1;
    if captures[n].0 == name {
      assert LastAt(captures, name, n);
    } else {
      OnlyCapturedNames(captures[..n], name);
      var i: nat :| LastAt(captures[..n], name, i);
      forall j: nat | i < j < |captures| ensures captures[j].0 != name {
        if j < n { assert captures[..n][j].0 != name; }
      }
      assert LastAt(captures, name, i);
    }
  }
}
