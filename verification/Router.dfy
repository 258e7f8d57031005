/**
  Route matching: the radix tree walk written out twice, once for `match` and once
  for `match_node`, and the two decisions a router takes with them, over nested
  sub-routers.
 */
module Router {
  import opened Wrappers
  import opened Text

  datatype Kind = Static | Param | Wildcard

  datatype Node<H> = Node(
    prefix: string,
    kind: Kind,
    paramName: string,
    children: seq<Node<H>>,
    handlers: map<string, H>)

  type Captures = seq<(string, string)>

  // ---------- the walk ----------

  /** The path up to the next slash. */
  function Segment(path: string): string {
    var slash := IndexOf(path, "/");
    if slash < 0 then path else path[..slash]
  }

  predicate Fits<H>(child: Node<H>, kind: Kind, path: string) {
    child.kind == kind && (kind == Static ==> child.prefix <= path) && (kind == Param ==> Segment(path) != "")
  }

  /** The first child of that kind that fits. */
  function FirstFit<H>(children: seq<Node<H>>, kind: Kind, path: string): (r: Option<Node<H>>)
    ensures r.Some? ==> r.value in children && Fits(r.value, kind, path)
  {
    if children == [] then None
    else if Fits(children[0], kind, path) then Some(children[0])
    else FirstFit(children[1..], kind, path)
  }

  /** Static children win over parameters, and parameters over wildcards. */
  function Choose<H>(children: seq<Node<H>>, path: string): (r: Option<Node<H>>)
    ensures r.Some? ==> r.value in children && Fits(r.value, r.value.kind, path)
  {
    var s := FirstFit(children, Static, path);
    if s.Some? then s
    else
      var p := FirstFit(children, Param, path);
      if p.Some? then p else FirstFit(children, Wildcard, path)
  }

  function Beyond<H>(child: Node<H>, path: string): string
    requires Fits(child, child.kind, path)
  {
    match child.kind
    case Static => path[|child.prefix|..]
    case Param => path[|Segment(path)|..]
    case Wildcard => ""
  }

  function Captured<H>(child: Node<H>, path: string): Captures {
    match child.kind
    case Static => []
    case Param => [(child.paramName, Segment(path))]
    case Wildcard => [(child.paramName, path)]
  }

  datatype Reached<H> = Reached(node: Node<H>, captures: Captures)

  /** The greedy walk: no choice is ever taken back. */
  function Walk<H>(node: Node<H>, path: string, captures: Captures): Option<Reached<H>>
    decreases node, |path|
  {
    if path == "" then Some(Reached(node, captures))
    else if path[0] == '/' then Walk(node, path[1..], captures)
    else
      var child := Choose(node.children, path);
      if child.None? then None
      else Walk(child.value, Beyond(child.value, path), captures + Captured(child.value, path))
  }

  lemma WalkUnfold<H>(node: Node<H>, path: string, captures: Captures)
    requires path != ""
    ensures Walk(node, path, captures) ==
              if path[0] == '/' then Walk(node, path[1..], captures)
              else
                var child := Choose(node.children, path);
                if child.None? then None
                else Walk(child.value, Beyond(child.value, path), captures + Captured(child.value, path))
  {}

  lemma WalkDone<H>(node: Node<H>, captures: Captures)
    ensures Walk(node, "", captures) == Some(Reached(node, captures))
  {}

  // ---------- the two copies ----------

  datatype Found<H> = Found(handler: H, captures: Captures)

  /** The handler of the method itself, or the one for all methods. */
  function Handler<H>(handlers: map<string, H>, method': string): Option<H> {
    if method' in handlers then Some(handlers[method'])
    else if "*" in handlers then Some(handlers["*"])
    else None
  }

  function MatchAt<H>(root: Node<H>, method': string, path: string): Option<Found<H>> {
    match Walk(root, path, [])
    case None => None
    case Some(r) =>
      match Handler(r.node.handlers, method')
      case None => None
      case Some(h) => Some(Found(h, r.captures))
  }

  lemma FirstFitFrom<H>(children: seq<Node<H>>, i: nat, kind: Kind, path: string)
    requires i < |children|
    ensures FirstFit(children[i..], kind, path)
         == if Fits(children[i], kind, path) then Some(children[i]) else FirstFit(children[i + 1..], kind, path)
  {
    assert children[i..][1..] == children[i + 1..];
  }

  /** `try_match` of the first copy: one kind at a time. */
  method TryMatch<H>(node: Node<H>, expected: Kind, path: string, captures: Captures)
    returns (next: Option<Node<H>>, rest: string, captures': Captures)
    requires path != ""
    ensures next == FirstFit(node.children, expected, path)
    ensures next.Some? ==> rest == Beyond(next.value, path) && captures' == captures + Captured(next.value, path)
    ensures next.None? ==> rest == path && captures' == captures
  {
    rest, captures' := path, captures;
    next := None;
    var i := 0;
    assert node.children[0..] == node.children;
    while i < |node.children|
      invariant 0 <= i <= |node.children|
      invariant FirstFit(node.children[i..], expected, path) == FirstFit(node.children, expected, path)
    {
      var child := node.children[i];
      FirstFitFrom(node.children, i, expected, path);
      i := i + 1;
      if child.kind != expected {
        continue;
      }
      match expected {
        case Static =>
          if |path| >= |child.prefix| && path[..|child.prefix|] == child.prefix {
            return Some(child), path[|child.prefix|..], captures + [];
          }
        case Param =>
          var slash := IndexOf(path, "/");
          var value := if slash < 0 then path else path[..slash];
          if value != "" {
            assert slash < 0 ==> path[|path|..] == "";
            return Some(child), if slash < 0 then "" else path[slash..], captures + [(child.paramName, value)];
          }
        case Wildcard =>
          return Some(child), "", captures + [(child.paramName, path)];
      }
    }
  }

  /** `match` of a tree. */
  method Match<H>(root: Node<H>, method': string, path: string) returns (r: Option<Found<H>>)
    ensures r == MatchAt(root, method', path)
  {
    var node, remaining := root, path;
    var captures: Captures := [];
    hide Walk, Choose, FirstFit, Beyond, Captured;
    while remaining != ""
      invariant Walk(node, remaining, captures) == Walk(root, path, [])
      decreases node, |remaining|
    {
      WalkUnfold(node, remaining, captures);
      if remaining[0] == '/' {
        remaining := remaining[1..];
        continue;
      }
      var next, rest, captures' := TryMatch(node, Static, remaining, captures);
      if next.None? {
        next, rest, captures' := TryMatch(node, Param, remaining, captures);
      }
      if next.None? {
        next, rest, captures' := TryMatch(node, Wildcard, remaining, captures);
      }
      ChooseIs(node.children, remaining);
      if next.None? {
        break;
      }
      node, remaining, captures := next.value, rest, captures';
    }
    if remaining == "" {
      WalkDone(node, captures);
      if method' in node.handlers {
        return Some(Found(node.handlers[method'], captures));
      }
      if "*" in node.handlers {
        return Some(Found(node.handlers["*"], captures));
      }
    }
    return None;
  }

  lemma ChooseIs<H>(children: seq<Node<H>>, path: string)
    ensures var s, p := FirstFit(children, Static, path), FirstFit(children, Param, path);
            Choose(children, path) == if s.Some? then s else if p.Some? then p else FirstFit(children, Wildcard, path)
  {
    hide FirstFit;
  }

  /** The loop over the static children in the second copy. */
  method ScanStatic<H>(node: Node<H>, path: string) returns (next: Option<Node<H>>)
    ensures next == FirstFit(node.children, Static, path)
  {
    var i := 0;
    assert node.children[0..] == node.children;
    while i < |node.children|
      invariant 0 <= i <= |node.children|
      invariant FirstFit(node.children[i..], Static, path) == FirstFit(node.children, Static, path)
    {
      var child := node.children[i];
      FirstFitFrom(node.children, i, Static, path);
      if child.kind == Static && |path| >= |child.prefix| && path[..|child.prefix|] == child.prefix {
        return Some(child);
      }
      i := i + 1;
    }
    return None;
  }

  method ScanParam<H>(node: Node<H>, path: string) returns (next: Option<Node<H>>)
    ensures next == FirstFit(node.children, Param, path)
  {
    var i := 0;
    assert node.children[0..] == node.children;
    while i < |node.children|
      invariant 0 <= i <= |node.children|
      invariant FirstFit(node.children[i..], Param, path) == FirstFit(node.children, Param, path)
    {
      var child := node.children[i];
      FirstFitFrom(node.children, i, Param, path);
      var slash := IndexOf(path, "/");
      var value := if slash < 0 then path else path[..slash];
      if child.kind == Param && value != "" {
        return Some(child);
      }
      i := i + 1;
    }
    return None;
  }

  method ScanWildcard<H>(node: Node<H>, path: string) returns (next: Option<Node<H>>)
    ensures next == FirstFit(node.children, Wildcard, path)
  {
    var i := 0;
    assert node.children[0..] == node.children;
    while i < |node.children|
      invariant 0 <= i <= |node.children|
      invariant FirstFit(node.children[i..], Wildcard, path) == FirstFit(node.children, Wildcard, path)
    {
      FirstFitFrom(node.children, i, Wildcard, path);
      if node.children[i].kind == Wildcard {
        return Some(node.children[i]);
      }
      i := i + 1;
    }
    return None;
  }

  lemma BeyondParam(path: string)
    ensures path[|Segment(path)|..] == if IndexOf(path, "/") < 0 then "" else path[IndexOf(path, "/")..]
  {}

  /** `match_node`: no captures, no method; it ends at the node the walk ends at. */
  method MatchNode<H>(root: Node<H>, path: string) returns (r: Option<Node<H>>)
    ensures r.Some? <==> Walk(root, path, []).Some?
    ensures r.Some? ==> r.value == Walk(root, path, []).value.node
  {
    var node, remaining := root, path;
    ghost var captures: Captures := [];
    hide Walk, Choose, FirstFit, Captured, Segment;
    while remaining != ""
      invariant Walk(node, remaining, captures) == Walk(root, path, [])
      decreases node, |remaining|
    {
      WalkUnfold(node, remaining, captures);
      ChooseIs(node.children, remaining);
      if remaining[0] == '/' {
        remaining := remaining[1..];
        continue;
      }
      var next := ScanStatic(node, remaining);
      if next.Some? {
        captures := captures + Captured(next.value, remaining);
        node, remaining := next.value, remaining[|next.value.prefix|..];
        continue;
      }
      next := ScanParam(node, remaining);
      if next.Some? {
        captures := captures + Captured(next.value, remaining);
        BeyondParam(remaining);
        var slash := IndexOf(remaining, "/");
        node, remaining := next.value, if slash < 0 then "" else remaining[slash..];
        continue;
      }
      next := ScanWildcard(node, remaining);
      if next.None? {
        return None;
      }
      captures := captures + Captured(next.value, remaining);
      node, remaining := next.value, "";
    }
    WalkDone(node, captures);
    return Some(node);
  }
}
