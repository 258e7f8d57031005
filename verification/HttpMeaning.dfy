/**
  What a serialised response says once it has been parsed, and what the parser's
  limits do, told without the serialiser's own definitions.
 */
module HttpMeaning {
  import opened Wrappers
  import opened Text
  import opened TextLines
  import opened HttpWire
  import opened HttpResponse

  // ---------- fields by name ----------

  /** The values given under a name, in order; names are compared in any case. */
  ghost function ValuesOf(headers: seq<Header>, name: string): seq<string> {
    if headers == [] then []
    else (if SameIgnoringCase(headers[0].name, name) then [headers[0].value] else []) + ValuesOf(headers[1..], name)
  }

  lemma LowerLetters(a: char, b: char)
    ensures LowerChar(a) == LowerChar(b) <==> SameLetter(a, b)
  {}

  lemma {:induction false} LowerLength(a: string)
    ensures |Lower(a)| == |a|
  {
    if a != "" { LowerLength(a[1..]); }
  }

  lemma {:induction false} LowerIgnoresCase(a: string, b: string)
    ensures Lower(a) == Lower(b) <==> SameIgnoringCase(a, b)
  {
    LowerLength(a);
    LowerLength(b);
    if a != "" && b != "" {
      LowerLetters(a[0], b[0]);
      LowerIgnoresCase(a[1..], b[1..]);
      assert Lower(a)[0] == LowerChar(a[0]) && Lower(b)[0] == LowerChar(b[0]);
      assert Lower(a)[1..] == Lower(a[1..]) && Lower(b)[1..] == Lower(b[1..]);
      SameTail(a, b);
      hide Lower, SameIgnoringCase, SameLetter;
      if Lower(a) != Lower(b) && LowerChar(a[0]) == LowerChar(b[0]) && |a| == |b| {
        assert [Lower(a)[0]] + Lower(a)[1..] == Lower(a) && [Lower(b)[0]] + Lower(b)[1..] == Lower(b);
      }
    }
  }

  lemma SameTail(a: string, b: string)
    requires a != "" && b != ""
    ensures SameIgnoringCase(a, b) <==> SameLetter(a[0], b[0]) && SameIgnoringCase(a[1..], b[1..])
  {
    hide SameLetter;
    if SameLetter(a[0], b[0]) && SameIgnoringCase(a[1..], b[1..]) {
      forall i | 0 <= i < |a| ensures SameLetter(a[i], b[i]) {
        if i > 0 { assert SameLetter(a[1..][i - 1], b[1..][i - 1]); }
      }
    }
    if SameIgnoringCase(a, b) {
      forall i | 0 <= i < |a[1..]| ensures SameLetter(a[1..][i], b[1..][i]) { assert SameLetter(a[i + 1], b[i + 1]); }
    }
  }

  lemma {:induction false} HasHeaderIs(headers: seq<Header>, name: string)
    ensures HasHeader(headers, name) <==> ValuesOf(headers, name) != []
  {
    if headers != [] {
      LowerIgnoresCase(headers[0].name, name);
      HasHeaderIs(headers[1..], name);
      hide Lower, SameIgnoringCase;
    }
  }

  lemma {:induction false} ValuesConcat(a: seq<Header>, b: seq<Header>, name: string)
    ensures ValuesOf(a + b, name) == ValuesOf(a, name) + ValuesOf(b, name)
  {
    hide SameIgnoringCase;
    if a == [] {
      assert a + b == b;
    } else {
      assert (a + b)[0] == a[0] && (a + b)[1..] == a[1..] + b;
      ValuesConcat(a[1..], b, name);
    }
  }

  lemma OneValue(h: Header, name: string)
    ensures ValuesOf([h], name) == if SameIgnoringCase(h.name, name) then [h.value] else []
    ensures h.name == name ==> ValuesOf([h], name) == [h.value]
  {
    assert [h][1..] == [];
  }

  // ---------- what the serialiser adds ----------

  lemma DifferentNames()
    ensures !SameIgnoringCase("Connection", "Transfer-Encoding") && !SameIgnoringCase("Transfer-Encoding", "Connection")
    ensures !SameIgnoringCase("Connection", "Content-Length") && !SameIgnoringCase("Content-Length", "Connection")
    ensures !SameIgnoringCase("Connection", "Content-Type") && !SameIgnoringCase("Content-Type", "Connection")
    ensures !SameIgnoringCase("Transfer-Encoding", "Content-Length") &&
        !SameIgnoringCase("Content-Length", "Transfer-Encoding")
    ensures !SameIgnoringCase("Transfer-Encoding", "Content-Type") &&
        !SameIgnoringCase("Content-Type", "Transfer-Encoding")
    ensures !SameIgnoringCase("Content-Length", "Content-Type") && !SameIgnoringCase("Content-Type", "Content-Length")
  {}

  lemma AddedConnection(r: Response, name: string)
    ensures name == "Connection" ==>
      (ValuesOf(ConnectionField(r), name) == if ValuesOf(r.headers, name) != [] then []
          else [if r.keepAlive then "keep-alive" else "close"])
    ensures !SameIgnoringCase("Connection", name) ==> ValuesOf(ConnectionField(r), name) == []
  {
    HasHeaderIs(r.headers, "Connection");
    hide HasHeader, SameIgnoringCase;
    if ConnectionField(r) != [] { OneValue(ConnectionField(r)[0], name); }
  }

  lemma AddedTransfer(r: Response, name: string)
    ensures name == "Transfer-Encoding" ==>
      (ValuesOf(TransferField(r), name) == if ValuesOf(r.headers, name) != [] || !r.chunked then [] else ["chunked"])
    ensures !SameIgnoringCase("Transfer-Encoding", name) ==> ValuesOf(TransferField(r), name) == []
  {
    HasHeaderIs(r.headers, "Transfer-Encoding");
    hide HasHeader, SameIgnoringCase;
    if TransferField(r) != [] { OneValue(TransferField(r)[0], name); }
  }

  /** A text of digits that reads as the number. */
  ghost predicate ReadsAs(text: string, n: nat) {
    text != "" && AllDigits(text, 10) && Number(text, 10) == n
  }

  lemma PrintReads(n: nat)
    ensures ReadsAs(Print(n, 10), n)
  {
    PrintIsDigits(n, 10);
    NumberOfPrint(n, 10);
  }

  lemma AddedLength(r: Response, name: string)
    ensures name == "Content-Length" ==>
      var v := ValuesOf(LengthField(r), name);
      if ValuesOf(r.headers, name) != [] || r.chunked then v == [] else |v| == 1 && ReadsAs(v[0], |r.body|)
    ensures !SameIgnoringCase("Content-Length", name) ==> ValuesOf(LengthField(r), name) == []
  {
    HasHeaderIs(r.headers, "Content-Length");
    PrintReads(|r.body|);
    hide HasHeader, SameIgnoringCase, Print, ReadsAs;
    if LengthField(r) != [] { OneValue(LengthField(r)[0], name); }
  }

  lemma AddedType(r: Response, name: string)
    ensures name == "Content-Type" ==>
      (ValuesOf(TypeField(r), name) == if ValuesOf(r.headers, name) != [] then [] else ["text/plain; charset=utf-8"])
    ensures !SameIgnoringCase("Content-Type", name) ==> ValuesOf(TypeField(r), name) == []
  {
    HasHeaderIs(r.headers, "Content-Type");
    hide HasHeader, SameIgnoringCase;
    if TypeField(r) != [] { OneValue(TypeField(r)[0], name); }
  }

  lemma ValuesOfAll(r: Response, name: string)
    ensures ValuesOf(r.headers + Derived(r), name) ==
              ValuesOf(r.headers, name) + (ValuesOf(ConnectionField(r), name) + (ValuesOf(TransferField(r), name)
              + (ValuesOf(LengthField(r), name) + ValuesOf(TypeField(r), name))))
  {
    var a, b, c, d := ConnectionField(r), TransferField(r), LengthField(r), TypeField(r);
    hide ConnectionField, TransferField, LengthField, TypeField, ValuesOf;
    ValuesConcat(r.headers, a + (b + (c + d)), name);
    ValuesConcat(a, b + (c + d), name);
    ValuesConcat(b, c + d, name);
    ValuesConcat(c, d, name);
  }

  /** What the fields of the parsed head say, for a response `r` and what follows the head. */
  ghost predicate FieldsMean(r: Response, headers: seq<Header>, rest: string) {
    var connection, transfer, length, kind :=
      ValuesOf(r.headers, "Connection"), ValuesOf(r.headers, "Transfer-Encoding"),
      ValuesOf(r.headers, "Content-Length"), ValuesOf(r.headers, "Content-Type");
    && r.headers <= headers
    && ValuesOf(headers, "Connection") ==
         (if connection != [] then connection else [if r.keepAlive then "keep-alive" else "close"])
    && ValuesOf(headers, "Transfer-Encoding") == (if transfer == [] && r.chunked then ["chunked"] else transfer)
    && (if length == [] && !r.chunked
        then |ValuesOf(headers, "Content-Length")| == 1 && ReadsAs(ValuesOf(headers, "Content-Length")[0], |rest|)
        else ValuesOf(headers, "Content-Length") == length)
    && ValuesOf(headers, "Content-Type") == (if kind != [] then kind else ["text/plain; charset=utf-8"])
    && (!r.chunked ==> rest == r.body)
  }

  /** Fields of any other name are the response's own. */
  ghost predicate OthersStay(r: Response, headers: seq<Header>) {
    forall name :: Ordinary(name) ==> ValuesOf(headers, name) == ValuesOf(r.headers, name)
  }

  /** None of the names the serialiser may add. */
  ghost predicate Ordinary(name: string) {
    && !SameIgnoringCase("Connection", name) && !SameIgnoringCase("Transfer-Encoding", name)
    && !SameIgnoringCase("Content-Length", name) && !SameIgnoringCase("Content-Type", name)
  }

  lemma OthersMean(r: Response, name: string)
    requires Ordinary(name)
    ensures ValuesOf(r.headers + Derived(r), name) == ValuesOf(r.headers, name)
  {
    hide SameIgnoringCase;
    ValuesOfAll(r, name);
    AddedConnection(r, name);
    AddedTransfer(r, name);
    AddedLength(r, name);
    AddedType(r, name);
    hide ValuesOf, Derived;
  }

  lemma ConnectionMeans(r: Response)
    ensures var own := ValuesOf(r.headers, "Connection");
            ValuesOf(r.headers + Derived(r), "Connection") ==
              if own != [] then own else [if r.keepAlive then "keep-alive" else "close"]
  {
    DifferentNames();
    hide SameIgnoringCase;
    ValuesOfAll(r, "Connection");
    AddedConnection(r, "Connection");
    AddedTransfer(r, "Connection");
    AddedLength(r, "Connection");
    AddedType(r, "Connection");
    hide ValuesOf, Derived;
  }

  lemma TransferMeans(r: Response)
    ensures var own := ValuesOf(r.headers, "Transfer-Encoding");
            ValuesOf(r.headers + Derived(r), "Transfer-Encoding") ==
              if own == [] && r.chunked then ["chunked"] else own
  {
    DifferentNames();
    hide SameIgnoringCase;
    ValuesOfAll(r, "Transfer-Encoding");
    AddedConnection(r, "Transfer-Encoding");
    AddedTransfer(r, "Transfer-Encoding");
    AddedLength(r, "Transfer-Encoding");
    AddedType(r, "Transfer-Encoding");
    hide ValuesOf, Derived;
  }

  lemma LengthMeans(r: Response)
    ensures var own := ValuesOf(r.headers, "Content-Length");
            var all := ValuesOf(r.headers + Derived(r), "Content-Length");
            if own == [] && !r.chunked then |all| == 1 && ReadsAs(all[0], |r.body|) else all == own
  {
    DifferentNames();
    hide SameIgnoringCase;
    ValuesOfAll(r, "Content-Length");
    AddedConnection(r, "Content-Length");
    AddedTransfer(r, "Content-Length");
    AddedLength(r, "Content-Length");
    AddedType(r, "Content-Length");
    hide ValuesOf, Derived, ReadsAs;
  }

  lemma TypeMeans(r: Response)
    ensures var own := ValuesOf(r.headers, "Content-Type");
            ValuesOf(r.headers + Derived(r), "Content-Type") ==
              if own != [] then own else ["text/plain; charset=utf-8"]
  {
    DifferentNames();
    hide SameIgnoringCase;
    ValuesOfAll(r, "Content-Type");
    AddedConnection(r, "Content-Type");
    AddedTransfer(r, "Content-Type");
    AddedLength(r, "Content-Type");
    AddedType(r, "Content-Type");
    hide ValuesOf, Derived;
  }

  lemma AllFieldsMean(r: Response)
    ensures FieldsMean(r, r.headers + Derived(r), Payload(r))
  {
    ConnectionMeans(r);
    TransferMeans(r);
    LengthMeans(r);
    TypeMeans(r);
    hide ValuesOf, Derived, ReadsAs, StreamBytes;
  }

  lemma AllOthersStay(r: Response)
    ensures OthersStay(r, r.headers + Derived(r))
  {
    forall name | Ordinary(name) ensures ValuesOf(r.headers + Derived(r), name) == ValuesOf(r.headers, name) {
      OthersMean(r, name);
    }
    hide Ordinary;
  }

  // ---------- the start line ----------

  function Size(n: int): nat { if n < 0 then -n else n }

  /** The version, a status that reads as the number, and the reason. */
  ghost predicate StatusLine(line: string, status: int, reason: string) {
    exists digits ::
      && ReadsAs(digits, Size(status))
      && line == "HTTP/1.1 " + ((if status < 0 then "-" + digits else digits) + (" " + reason))
  }

  lemma StartLineMeans(r: Response, defaultReason: string)
    ensures StatusLine(StartLine(r, defaultReason), r.status, if r.reason == "" then defaultReason else r.reason)
  {
    PrintReads(Size(r.status));
    var digits := Print(Size(r.status), 10);
    hide Print, ReadsAs;
    var number := if r.status < 0 then "-" + digits else digits;
    assert PrintInt(r.status) == number;
    var reason := if r.reason == "" then defaultReason else r.reason;
    assert StartLine(r, defaultReason) == "HTTP/1.1 " + (number + (" " + reason));
  }

  // ---------- the theorem ----------

  /** Every presentable response, once serialised and parsed: the start line gives the
      status and the reason, the head ends where the body or its chunks begin, the
      response's own fields come first and are not repeated, and the fields that were
      added say how the body is framed, its exact length if it is not chunked, and
      whether the connection stays open. */
  lemma ParsedResponseMeans(l: Limits, mode: Mode, r: Response, defaultReason: string, count: nat)
    requires mode != RequestOnly
    ensures Presentable(l, r, defaultReason) ==>
      var h := ParseHead(l, mode, Serialize(r, defaultReason));
      && h.Head?
      && StatusLine(h.startLine, r.status, if r.reason == "" then defaultReason else r.reason)
      && FieldsMean(r, h.headers, h.rest) && OthersStay(r, h.headers)
      && (r.chunked && Sendable(l, r.body) ==>
            var w := WalkChunks(l, h.rest, count, []);
            w.Walked? && Concat(w.chunks) == r.body && w.trailers == [] && w.rest == "")
  {
    ResponseRoundTrip(l, mode, r, defaultReason);
    AllFieldsMean(r);
    AllOthersStay(r);
    StartLineMeans(r, defaultReason);
    if r.chunked && Sendable(l, r.body) { ChunkedPayloadRoundTrip(l, r, count); }
    hide *;
  }
}
