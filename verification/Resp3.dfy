/**
  Redis replies: the flat, pre-order list of RESP3 nodes and the reply tree that
  the decoder builds from it, advancing one shared index.
 */
module Resp3 {
  import opened Wrappers
  import opened Text

  datatype Kind =
    | NullKind | SimpleString | BlobString | VerbatimString | BigNumber | StreamedString | StreamedStringPart
    | SimpleError | BlobError | NumberKind | Boolean | Doublean
    | ArrayKind | PushKind | SetKind | MapKind | Attribute | Invalid

  datatype Node = Node(kind: Kind, value: string, size: nat)

  datatype Reply =
    | Null
    | Status(text: string)
    | Str(text: string)
    | Failure(text: string)
    | Integer(number: int)
    | Array(elements: seq<Reply>)

  predicate IsAggregate(k: Kind) {
    k in {ArrayKind, PushKind, SetKind, MapKind, Attribute}
  }

  function Multiplicity(k: Kind): nat {
    if k == MapKind || k == Attribute then 2 else 1
  }

  /** Reads digits; anything else makes the whole number zero. */
  function ParseInt(text: string): int {
    if text == "" then 0
    else
      var neg := text[0] == '-';
      var digits := if neg then text[1..] else text;
      var v := if DigitRun(digits, 10) == |digits| then Number(digits, 10) else 0;
      if neg then -v else v
  }

  function LeafReply(k: Kind, value: string): Reply {
    match k
    case SimpleString => Status(value)
    case BlobString => Str(value)
    case VerbatimString => Str(value)
    case BigNumber => Str(value)
    case StreamedString => Str(value)
    case StreamedStringPart => Str(value)
    case Doublean => Str(value)
    case SimpleError => Failure(value)
    case BlobError => Failure(value)
    case NumberKind => Integer(ParseInt(value))
    case Boolean => Integer(if value == "t" || value == "true" || value == "1" then 1 else 0)
    case _ => Null
  }

  // ---------- the decoder ----------

  /** The reply that starts at `index`, and the index after it; past the end, nothing is read. */
  function ParseNode(nodes: seq<Node>, index: nat): (r: (Reply, nat))
    ensures index <= r.1 && (index <= |nodes| ==> r.1 <= |nodes|) && (index < |nodes| ==> index < r.1)
    decreases |nodes| - index, 0, 0
  {
    if index >= |nodes| then (Null, index)
    else
      var node := nodes[index];
      if IsAggregate(node.kind) then
        var (elements, next) := ParseMany(nodes, index + 1, node.size * Multiplicity(node.kind));
        (Array(elements), next)
      else (LeafReply(node.kind, node.value), index + 1)
  }

  function ParseMany(nodes: seq<Node>, index: nat, count: nat): (r: (seq<Reply>, nat))
    ensures index <= r.1 && (index <= |nodes| ==> r.1 <= |nodes|) && |r.0| == count
    decreases |nodes| - index, 1, count
  {
    if count == 0 then ([], index)
    else
      var (first, next) := ParseNode(nodes, index);
      var (rest, end) := ParseMany(nodes, next, count - 1);
      ([first] + rest, end)
  }

  method ParseRespNode(nodes: seq<Node>, index: nat) returns (reply: Reply, next: nat)
    ensures (reply, next) == ParseNode(nodes, index)
    decreases |nodes| - index
  {
    if index >= |nodes| {
      return Null, index;
    }
    var node := nodes[index];
    next := index + 1;
    if !IsAggregate(node.kind) {
      return LeafReply(node.kind, node.value), next;
    }
    var children := node.size * Multiplicity(node.kind);
    var elements: seq<Reply> := [];
    var i := 0;
    assert [] + ParseMany(nodes, next, children).0 == ParseMany(nodes, next, children).0;
    while i < children
      invariant 0 <= i <= children && index < next
      invariant ParseMany(nodes, index + 1, children)
             == (elements + ParseMany(nodes, next, children - i).0, ParseMany(nodes, next, children - i).1)
    {
      ghost var (first, after) := ParseNode(nodes, next);
      ghost var rest := ParseMany(nodes, after, children - i - 1);
      assert elements + ([first] + rest.0) == (elements + [first]) + rest.0;
      var element;
      element, next := ParseRespNode(nodes, next);
      elements := elements + [element];
      i := i + 1;
    }
    assert elements + [] == elements;
    reply := Array(elements);
  }

  /** A failed response (`None`) is an error, an empty node list a null reply. */
  method ConvertResponse(response: Option<seq<Node>>) returns (reply: Option<Reply>)
    ensures response.None? ==> reply == None
    ensures response.Some? ==> reply == Some(ParseNode(response.value, 0).0)
  {
    if response.None? {
      return None;
    }
    if response.value == [] {
      return Some(Null);
    }
    var r, next := ParseRespNode(response.value, 0);
    return Some(r);
  }

  // ---------- reply trees ----------

  datatype Tree = Leaf(kind: Kind, value: string) | Branch(kind: Kind, children: seq<Tree>)

  /** A branch is an aggregate, with two children for every entry of a map or attribute. */
  ghost predicate WellFormed(t: Tree) {
    match t
    case Leaf(k, _) => !IsAggregate(k)
    case Branch(k, cs) =>
      IsAggregate(k) && |cs| % Multiplicity(k) == 0 && forall i :: 0 <= i < |cs| ==> WellFormed(cs[i])
  }

  function Flatten(t: Tree): (r: seq<Node>)
    ensures |r| > 0
    decreases t, 0
  {
    match t
    case Leaf(k, v) => [Node(k, v, 0)]
    case Branch(k, cs) => [Node(k, "", |cs| / Multiplicity(k))] + FlattenAll(cs)
  }

  function FlattenAll(ts: seq<Tree>): seq<Node>
    decreases ts, 1
  {
    if ts == [] then [] else Flatten(ts[0]) + FlattenAll(ts[1..])
  }

  function Meaning(t: Tree): Reply
    decreases t, 0
  {
    match t
    case Leaf(k, v) => LeafReply(k, v)
    case Branch(_, cs) => Array(MeaningAll(cs))
  }

  function MeaningAll(ts: seq<Tree>): (r: seq<Reply>)
    ensures |r| == |ts|
    decreases ts, 1
  {
    if ts == [] then [] else [Meaning(ts[0])] + MeaningAll(ts[1..])
  }

  /** Decoding a flattened tree, wherever it stands in the list, gives the tree's
      meaning and advances the index by exactly its number of nodes. */
  lemma {:induction false} DecodeFlattened(before: seq<Node>, t: Tree, after: seq<Node>)
    requires WellFormed(t)
    ensures ParseNode(before + Flatten(t) + after, |before|) == (Meaning(t), |before| + |Flatten(t)|)
    decreases t, 0
  {
    var nodes := before + Flatten(t) + after;
    assert nodes[|before|] == Flatten(t)[0];
    match t
    case Leaf(_, _) =>
    case Branch(k, cs) =>
      var head := [Node(k, "", |cs| / Multiplicity(k))];
      assert nodes == (before + head) + FlattenAll(cs) + after;
      DecodeFlattenedAll(before + head, cs, after);
      assert (|cs| / Multiplicity(k)) * Multiplicity(k) == |cs|;
  }

  lemma {:induction false} DecodeFlattenedAll(before: seq<Node>, ts: seq<Tree>, after: seq<Node>)
    requires forall i :: 0 <= i < |ts| ==> WellFormed(ts[i])
    ensures ParseMany(before + FlattenAll(ts) + after, |before|, |ts|) == (MeaningAll(ts), |before| + |FlattenAll(ts)|)
    decreases ts, 1
  {
    if ts == [] {
      assert before + [] + after == before + after;
    } else {
      var first, rest := Flatten(ts[0]), FlattenAll(ts[1..]);
      AllUnfold(ts);
      ParseManyUnfold(before + FlattenAll(ts) + after, |before|, |ts|);
      hide ParseNode, ParseMany, Flatten, FlattenAll, Meaning, MeaningAll, WellFormed;
      Regroup(before, first, rest, after);
      DecodeFlattened(before, ts[0], rest + after);
      DecodeFlattenedAll(before + first, ts[1..], after);
    }
  }

  lemma Regroup(before: seq<Node>, first: seq<Node>, rest: seq<Node>, after: seq<Node>)
    ensures before + (first + rest) + after == before + first + (rest + after)
    ensures before + (first + rest) + after == (before + first) + rest + after
  {}

  lemma AllUnfold(ts: seq<Tree>)
    requires ts != []
    ensures FlattenAll(ts) == Flatten(ts[0]) + FlattenAll(ts[1..])
    ensures MeaningAll(ts) == [Meaning(ts[0])] + MeaningAll(ts[1..])
  {}

  lemma ParseManyUnfold(nodes: seq<Node>, index: nat, count: nat)
    requires count > 0
    ensures var first := ParseNode(nodes, index);
            var rest := ParseMany(nodes, first.1, count - 1);
            ParseMany(nodes, index, count) == ([first.0] + rest.0, rest.1)
  {}

  lemma PrintedFirstDigit(n: nat)
    ensures Print(n, 10)[0] != '-'
  {
    PrintIsDigits(n, 10);
  }

  /** A number reply carries the number that was printed, and reading it stays within
      signed 64 bits exactly when the magnitude does. */
  lemma NumbersSurvive(n: int)
    ensures LeafReply(NumberKind, PrintInt(n)) == Integer(n)
    ensures Fits64(Print(Magnitude(n), 10)) <==> -MAX_INT64 <= n <= MAX_INT64
  {
    ReadingFitsExactly(n);
    hide Fits64;
    var m := if n < 0 then -n else n;
    var d := Print(m, 10);
    NumberOfPrint(m, 10);
    PrintIsDigits(m, 10);
    DigitRunIs(d, "", 10);
    assert d + "" == d;
    PrintedFirstDigit(m);
    assert ("-" + d)[1..] == d;
  }

  // ---------- within 64 bits ----------

  const MAX_INT64: int := 0x7fff_ffff_ffff_ffff

  /** The accumulator never exceeds the signed 64-bit range, whatever prefix has been read. */
  ghost predicate Fits64(digits: string) {
    forall k :: 0 <= k <= |digits| ==> Number(digits[..k], 10) <= MAX_INT64
  }

  lemma {:induction false} PrefixIsSmaller(digits: string, k: nat)
    requires k <= |digits|
    ensures Number(digits[..k], 10) <= Number(digits, 10)
    decreases |digits|
  {
    if k == |digits| {
      assert digits[..k] == digits;
    } else {
      var front := digits[..|digits| - 1];
      PrefixIsSmaller(front, k);
      assert front[..k] == digits[..k];
    }
  }

  function Magnitude(n: int): nat { if n < 0 then -n else n }

  /** Reading a printed integer stays within 64 bits exactly when its magnitude does;
      the smallest 64-bit integer is the one value of the type that does not. */
  lemma ReadingFitsExactly(n: int)
    ensures Fits64(Print(Magnitude(n), 10)) <==> -MAX_INT64 <= n <= MAX_INT64
  {
    var m := Magnitude(n);
    var d := Print(m, 10);
    NumberOfPrint(m, 10);
    assert d[..|d|] == d;
    forall k | 0 <= k <= |d| ensures Number(d[..k], 10) <= m { PrefixIsSmaller(d, k); }
  }

  // ---------- replies as a server sends them ----------

  /** One way to send each reply. */
  function Sent(r: Reply): Tree
    decreases r, 0
  {
    match r
    case Null => Leaf(NullKind, "")
    case Status(text) => Leaf(SimpleString, text)
    case Str(text) => Leaf(BlobString, text)
    case Failure(text) => Leaf(SimpleError, text)
    case Integer(n) => Leaf(NumberKind, PrintInt(n))
    case Array(elements) => Branch(ArrayKind, SentAll(elements))
  }

  function SentAll(rs: seq<Reply>): (ts: seq<Tree>)
    ensures |ts| == |rs|
    decreases rs, 1
  {
    if rs == [] then [] else [Sent(rs[0])] + SentAll(rs[1..])
  }

  lemma {:induction false} SentMeans(r: Reply)
    ensures WellFormed(Sent(r)) && Meaning(Sent(r)) == r
    decreases r, 0
  {
    match r
    case Integer(n) => NumbersSurvive(n);
    case Array(elements) => SentAllMean(elements);
    case _ =>
  }

  lemma {:induction false} SentAllMean(rs: seq<Reply>)
    ensures (forall i :: 0 <= i < |rs| ==> WellFormed(SentAll(rs)[i])) && MeaningAll(SentAll(rs)) == rs
    decreases rs, 1
  {
    if rs != [] {
      SentMeans(rs[0]);
      SentAllMean(rs[1..]);
      assert SentAll(rs)[1..] == SentAll(rs[1..]);
    }
  }

  /** Every reply, however nested, comes back from what was sent, and nothing behind it is touched. */
  lemma ReplyRoundTrip(r: Reply, after: seq<Node>)
    ensures ParseNode(Flatten(Sent(r)) + after, 0) == (r, |Flatten(Sent(r))|)
  {
    SentMeans(r);
    DecodeFlattened([], Sent(r), after);
    assert [] + Flatten(Sent(r)) + after == Flatten(Sent(r)) + after;
  }

  /** The other leaves: text stays text, errors stay errors, and booleans become numbers. */
  lemma OtherLeaves(k: Kind, text: string)
    ensures k in [VerbatimString, BigNumber, StreamedString, StreamedStringPart, Doublean] ==>
      ParseNode([Node(k, text, 0)], 0) == (Str(text), 1)
    ensures ParseNode([Node(BlobError, text, 0)], 0) == (Failure(text), 1)
    ensures ParseNode([Node(Boolean, "t", 0)], 0) == (Integer(1), 1)
    ensures ParseNode([Node(Boolean, "true", 0)], 0) == (Integer(1), 1)
    ensures ParseNode([Node(Boolean, "1", 0)], 0) == (Integer(1), 1)
    ensures text != "t" && text != "true" && text != "1" ==> ParseNode([Node(Boolean, text, 0)], 0) == (Integer(0), 1)
    ensures ParseNode([Node(Invalid, text, 0)], 0) == (Null, 1)
  {}

  /** Aggregates of every kind are arrays; a map or an attribute of `n` entries takes `2 * n` elements. */
  lemma AggregatesCount(k: Kind, n: nat, nodes: seq<Node>)
    ensures k in [ArrayKind, PushKind, SetKind] ==>
      var r := ParseNode([Node(k, "", n)] + nodes, 0).0; r.Array? && |r.elements| == n
    ensures k in [MapKind, Attribute] ==>
      var r := ParseNode([Node(k, "", n)] + nodes, 0).0; r.Array? && |r.elements| == 2 * n
  {
    assert ([Node(k, "", n)] + nodes)[0] == Node(k, "", n);
    hide ParseMany;
  }

  lemma {:induction false} RunStopsBefore(s: string, k: nat)
    requires k < |s| && DigitValue(s[k]) >= 10
    ensures DigitRun(s, 10) <= k
  {
    if k > 0 && DigitValue(s[0]) < 10 { RunStopsBefore(s[1..], k - 1); }
  }

  /** A number text with anything but digits behind an optional minus sign reads as zero. */
  lemma JunkNumbersAreZero(text: string, k: nat)
    requires k < |text| && DigitValue(text[k]) >= 10 && (k == 0 ==> text[0] != '-')
    ensures ParseNode([Node(NumberKind, text, 0)], 0) == (Integer(0), 1)
  {
    var digits := if text[0] == '-' then text[1..] else text;
    RunStopsBefore(digits, if text[0] == '-' then k - 1 else k);
    assert ParseInt(text) == 0;
  }
}
