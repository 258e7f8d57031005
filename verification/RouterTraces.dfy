/**
  What a route match means, told without the walk: which nodes a path leads through,
  which piece of the path each of them takes, and what is captured on the way.
 */
module RouterTraces {
  import opened Wrappers
  import opened Text
  import opened Router

  /** A node entered on the way and the piece of the path it stands for. */
  datatype Hop<H> = Hop(child: Node<H>, text: string)

  function LeadingSlashes(path: string): (n: nat)
    ensures n <= |path|
  {
    if path != "" && path[0] == '/' then 1 + LeadingSlashes(path[1..]) else 0
  }

  function Unslashed(path: string): string { path[LeadingSlashes(path)..] }

  // ---------- which child, and which piece ----------

  predicate StaticFits<H>(child: Node<H>, path: string) { child.kind == Static && child.prefix <= path }

  /** The first static child whose prefix fits; failing that the first parameter, which
      takes everything up to the next slash; failing that the first wildcard, which
      takes everything. */
  ghost predicate Chosen<H>(children: seq<Node<H>>, path: string, hop: Hop<H>, i: nat) {
    && i < |children| && children[i] == hop.child && hop.text <= path
    && match hop.child.kind
       case Static =>
         && hop.text == hop.child.prefix
         && (forall j :: 0 <= j < i ==> !StaticFits(children[j], path))
       case Param =>
         && hop.text != "" && '/' !in hop.text && (|hop.text| == |path| || path[|hop.text|] == '/')
         && (forall j :: 0 <= j < |children| ==> !StaticFits(children[j], path))
         && (forall j :: 0 <= j < i ==> children[j].kind != Param)
       case Wildcard =>
         && hop.text == path
         && (forall j :: 0 <= j < |children| ==> !StaticFits(children[j], path) && children[j].kind != Param)
         && (forall j :: 0 <= j < i ==> children[j].kind != Wildcard)
  }

  /** The path leads from `node` through the hops to `end`, and nothing is left but slashes. */
  ghost predicate Traces<H(!new)>(node: Node<H>, path: string, hops: seq<Hop<H>>, end: Node<H>)
    decreases |hops|
  {
    var rest := Unslashed(path);
    if hops == [] then rest == "" && end == node
    else
      && rest != "" && (exists i :: Chosen(node.children, rest, hops[0], i))
      && |hops[0].text| <= |rest|
      && Traces(hops[0].child, rest[|hops[0].text|..], hops[1..], end)
  }

  function CapturesOf<H>(hops: seq<Hop<H>>): Captures {
    if hops == [] then []
    else (if hops[0].child.kind == Static then []
        else [(hops[0].child.paramName, hops[0].text)]) + CapturesOf(hops[1..])
  }

  // ---------- the walk does just that ----------

  lemma {:induction false} FirstFitFinds<H>(children: seq<Node<H>>, kind: Kind, path: string) returns (i: nat)
    ensures i <= |children| && forall j :: 0 <= j < i ==> !Fits(children[j], kind, path)
    ensures i < |children| ==> Fits(children[i], kind, path) && FirstFit(children, kind, path) == Some(children[i])
    ensures i == |children| ==> FirstFit(children, kind, path) == None
  {
    i := 0;
    if children != [] && !Fits(children[0], kind, path) {
      var k := FirstFitFinds(children[1..], kind, path);
      i := k + 1;
      forall j | 0 <= j < i ensures !Fits(children[j], kind, path) {
        if j > 0 { assert children[1..][j - 1] == children[j]; }
      }
    }
  }

  lemma SegmentIs(path: string)
    requires path != "" && path[0] != '/'
    ensures Segment(path) != "" && '/' !in Segment(path) && Segment(path) <= path
    ensures |Segment(path)| == |path| || path[|Segment(path)|] == '/'
  {
    var slash := IndexOf(path, "/");
    var s := Segment(path);
    if '/' in s {
      var k :| 0 <= k < |s| && s[k] == '/';
      FoundByThen(path, k);
    }
    if slash >= 0 { assert path[slash..slash + 1] == "/"; }
  }

  lemma {:induction false} FoundByThen(path: string, k: nat)
    requires k < |path| && path[k] == '/'
    ensures 0 <= IndexOf(path, "/") <= k
  {
    if k > 0 && path[0] != '/' {
      FoundByThen(path[1..], k - 1);
    }
  }

  /** There is only one piece without slashes that reaches up to a slash or the end. */
  lemma OneSegment(path: string, a: string, b: string)
    requires a <= path && b <= path && '/' !in a && '/' !in b
    requires (|a| == |path| || path[|a|] == '/') && (|b| == |path| || path[|b|] == '/')
    ensures a == b
  {
    assert a == path[..|a|] && b == path[..|b|];
  }

  lemma FitsAre<H>(child: Node<H>, path: string)
    requires path != "" && path[0] != '/'
    ensures Fits(child, Static, path) <==> StaticFits(child, path)
    ensures Fits(child, Param, path) <==> child.kind == Param
    ensures Fits(child, Wildcard, path) <==> child.kind == Wildcard
  {
    SegmentIs(path);
  }

  /** The piece of the path a chosen child takes. */
  function Piece<H>(child: Node<H>, path: string): string {
    match child.kind
    case Static => child.prefix
    case Param => Segment(path)
    case Wildcard => path
  }

  lemma ChoiceIsChosen<H>(children: seq<Node<H>>, path: string) returns (i: nat)
    requires path != "" && path[0] != '/'
    ensures Choose(children, path) == None ==> forall hop, k: nat :: !Chosen(children, path, hop, k)
    ensures Choose(children, path).Some? ==>
      var child := Choose(children, path).value;
      && Chosen(children, path, Hop(child, Piece(child, path)), i)
      && (forall hop, k: nat :: Chosen(children, path, hop, k) ==> hop == Hop(child, Piece(child, path)))
  {
    SegmentIs(path);
    forall c | c in children
      ensures Fits(c, Static, path) <==> StaticFits(c, path)
      ensures Fits(c, Param, path) <==> c.kind == Param
      ensures Fits(c, Wildcard, path) <==> c.kind == Wildcard
    {
      FitsAre(c, path);
    }
    var a := FirstFitFinds(children, Static, path);
    var b := FirstFitFinds(children, Param, path);
    var w := FirstFitFinds(children, Wildcard, path);
    hide Fits, FirstFit, Segment;
    i := if a < |children| then a else if b < |children| then b else w;
    forall hop, k: nat | Chosen(children, path, hop, k)
      ensures Choose(children, path) == Some(hop.child) && hop.text == Piece(hop.child, path)
    {
      OnlyChoice(children, path, hop, k, a, b, w);
    }
  }

  lemma OnlyChoice<H>(children: seq<Node<H>>, path: string, hop: Hop<H>, k: nat, a: nat, b: nat, w: nat)
    requires path != "" && path[0] != '/' && Chosen(children, path, hop, k)
    requires a <= |children| && b <= |children| && w <= |children|
    requires forall j :: 0 <= j < a ==> !StaticFits(children[j], path)
    requires forall j :: 0 <= j < b ==> children[j].kind != Param
    requires forall j :: 0 <= j < w ==> children[j].kind != Wildcard
    requires a < |children| ==> StaticFits(children[a], path)
    requires b < |children| ==> children[b].kind == Param
    requires w < |children| ==> children[w].kind == Wildcard
    ensures var i := if a < |children| then a else if b < |children| then b else w;
            i < |children| && k == i && hop.text == Piece(hop.child, path)
  {
    assert children[k] == hop.child;
    match hop.child.kind
    case Static => assert StaticFits(children[k], path);
    case Param =>
      SegmentIs(path);
      OneSegment(path, hop.text, Segment(path));
    case Wildcard =>
  }

  lemma SkipSlash<H(!new)>(node: Node<H>, path: string, hops: seq<Hop<H>>, end: Node<H>)
    requires path != "" && path[0] == '/'
    ensures Traces(node, path, hops, end) <==> Traces(node, path[1..], hops, end)
  {
    assert Unslashed(path) == Unslashed(path[1..]);
  }

  lemma UnslashedSelf(path: string)
    requires path == "" || path[0] != '/'
    ensures Unslashed(path) == path
  {}

  lemma PieceFits<H>(child: Node<H>, path: string)
    requires path != "" && path[0] != '/' && Fits(child, child.kind, path)
    ensures Piece(child, path) <= path && Beyond(child, path) == path[|Piece(child, path)|..]
    ensures Captured(child, path) == if child.kind == Static then [] else [(child.paramName, Piece(child, path))]
  {
    SegmentIs(path);
  }

  /** Whatever the walk reaches is traced by hops whose captures it reports. */
  lemma {:induction false} WalkIsTraced<H(!new)>(node: Node<H>, path: string, captures: Captures)
      returns (hops: seq<Hop<H>>)
    requires Walk(node, path, captures).Some?
    ensures Traces(node, path, hops, Walk(node, path, captures).value.node)
    ensures Walk(node, path, captures).value.captures == captures + CapturesOf(hops)
    decreases node, |path|
  {
    hops := [];
    if path == "" {
      UnslashedSelf(path);
      assert captures + [] == captures;
    } else {
      WalkUnfold(node, path, captures);
      if path[0] == '/' {
        hops := WalkIsTraced(node, path[1..], captures);
        SkipSlash(node, path, hops, Walk(node, path, captures).value.node);
      } else {
        var child := Choose(node.children, path).value;
        var i := ChoiceIsChosen(node.children, path);
        PieceFits(child, path);
        var hop := Hop(child, Piece(child, path));
        hide Walk, Choose, Chosen, Piece, Beyond, Captured, Fits;
        var more := WalkIsTraced(child, Beyond(child, path), captures + Captured(child, path));
        hops := [hop] + more;
        UnslashedSelf(path);
        TraceOne(node, path, hop, i, more, Walk(node, path, captures).value.node);
        CapturesStep(captures, hop, more);
      }
    }
  }

  lemma TraceOne<H(!new)>(node: Node<H>, path: string, hop: Hop<H>, i: nat, more: seq<Hop<H>>, end: Node<H>)
    requires Unslashed(path) == path && path != "" && Chosen(node.children, path, hop, i) && |hop.text| <= |path|
    requires Traces(hop.child, path[|hop.text|..], more, end)
    ensures Traces(node, path, [hop] + more, end)
  {
    assert ([hop] + more)[1..] == more;
  }

  lemma CapturesStep<H>(captures: Captures, hop: Hop<H>, more: seq<Hop<H>>)
    ensures captures + CapturesOf([hop] + more)
         == (captures + if hop.child.kind == Static then [] else [(hop.child.paramName, hop.text)]) + CapturesOf(more)
  {
    assert ([hop] + more)[1..] == more;
  }

  /** Whatever is traced, the walk reaches. */
  lemma {:induction false} TracedIsWalked<H(!new)>(
    node: Node<H>, path: string, hops: seq<Hop<H>>, end: Node<H>, captures: Captures)
    requires Traces(node, path, hops, end)
    ensures Walk(node, path, captures) == Some(Reached(end, captures + CapturesOf(hops)))
    decreases node, |path|
  {
    if path == "" {
      UnslashedSelf(path);
      assert captures + [] == captures;
    } else {
      WalkUnfold(node, path, captures);
      if path[0] == '/' {
        SkipSlash(node, path, hops, end);
        TracedIsWalked(node, path[1..], hops, end, captures);
      } else {
        UnslashedSelf(path);
        var k :| Chosen(node.children, path, hops[0], k);
        var i := ChoiceIsChosen(node.children, path);
        var child := Choose(node.children, path).value;
        assert hops[0] == Hop(child, Piece(child, path));
        PieceFits(child, path);
        assert hops == [hops[0]] + hops[1..];
        CapturesStep(captures, hops[0], hops[1..]);
        hide Walk, Choose, Chosen, Piece, Beyond, Captured, Fits, CapturesOf;
        TracedIsWalked(child, Beyond(child, path), hops[1..], end, captures + Captured(child, path));
      }
    }
  }

  // ---------- what a match means ----------

  /** A tree matches exactly when the path can be traced to a node with a handler for the
      method, or else for all methods; the handler is that one, and the captured values
      are the pieces taken by the parameters and wildcards on the way, in order. */
  lemma MatchIsExact<H(!new)>(root: Node<H>, method': string, path: string, f: Found<H>)
    ensures MatchAt(root, method', path) == Some(f) <==>
              exists hops, end ::
                && Traces(root, path, hops, end) && f.captures == CapturesOf(hops)
                && (if method' in end.handlers then f.handler == end.handlers[method']
                    else "*" in end.handlers && f.handler == end.handlers["*"])
  {
    if MatchAt(root, method', path) == Some(f) {
      var hops := WalkIsTraced(root, path, []);
      assert [] + CapturesOf(hops) == CapturesOf(hops);
    }
    forall hops, end | Traces(root, path, hops, end)
      ensures Walk(root, path, []) == Some(Reached(end, CapturesOf(hops)))
    {
      TracedIsWalked(root, path, hops, end, []);
      assert [] + CapturesOf(hops) == CapturesOf(hops);
    }
    hide Traces, Walk, CapturesOf;
  }

  function Texts<H>(hops: seq<Hop<H>>): string {
    if hops == [] then "" else hops[0].text + Texts(hops[1..])
  }

  function NoSlashes(s: string): string {
    if s == "" then "" else (if s[0] == '/' then "" else [s[0]]) + NoSlashes(s[1..])
  }

  lemma {:induction false} NoSlashesConcat(a: string, b: string)
    ensures NoSlashes(a + b) == NoSlashes(a) + NoSlashes(b)
  {
    if a == "" {
      assert a + b == b;
    } else {
      assert (a + b)[1..] == a[1..] + b && (a + b)[0] == a[0];
      NoSlashesUnfold(a);
      NoSlashesUnfold(a + b);
      hide NoSlashes;
      NoSlashesConcat(a[1..], b);
      Assoc(if a[0] == '/' then "" else [a[0]], NoSlashes(a[1..]), NoSlashes(b));
    }
  }

  lemma NoSlashesUnfold(s: string)
    requires s != ""
    ensures NoSlashes(s) == (if s[0] == '/' then "" else [s[0]]) + NoSlashes(s[1..])
  {}

  lemma {:induction false} LeadingSlashesGo(path: string)
    ensures NoSlashes(path) == NoSlashes(Unslashed(path))
  {
    if path != "" && path[0] == '/' {
      LeadingSlashesGo(path[1..]);
      assert Unslashed(path) == Unslashed(path[1..]);
    }
  }

  /** The static prefixes and the captured values, put together, are the path up to slashes. */
  lemma {:induction false} HopsRebuildThePath<H(!new)>(node: Node<H>, path: string, hops: seq<Hop<H>>, end: Node<H>)
    requires Traces(node, path, hops, end)
    ensures NoSlashes(Texts(hops)) == NoSlashes(path)
    decreases |hops|
  {
    LeadingSlashesGo(path);
    if hops != [] {
      var rest := Unslashed(path);
      var text := hops[0].text;
      assert rest == text + rest[|text|..] by {
        var i :| Chosen(node.children, rest, hops[0], i);
      }
      HopsRebuildThePath(hops[0].child, rest[|text|..], hops[1..], end);
      NoSlashesConcat(text, rest[|text|..]);
      NoSlashesConcat(text, Texts(hops[1..]));
    }
  }
}
