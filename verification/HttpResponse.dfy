/**
  Serialised responses against the head parser: cutting at the first blank line
  and parsing the header block gives back the fields, and what remains is the
  body or its chunk coding.
 */
module HttpResponse {
  import opened Text
  import opened TextLines
  import opened HttpWire

  datatype Response = Response(
    status: int,
    reason: string,
    headers: seq<Header>,
    body: string,
    keepAlive: bool,
    chunked: bool)

  function LowerChar(c: char): char {
    if 'A' <= c <= 'Z' then (c as int - 'A' as int + 'a' as int) as char else c
  }

  function Lower(s: string): string {
    if s == "" then "" else [LowerChar(s[0])] + Lower(s[1..])
  }

  predicate HasHeader(headers: seq<Header>, name: string) {
    headers != [] && (Lower(headers[0].name) == Lower(name) || HasHeader(headers[1..], name))
  }

  function ConnectionField(r: Response): seq<Header> {
    if HasHeader(r.headers, "Connection") then []
    else [Header("Connection", if r.keepAlive then "keep-alive" else "close")]
  }

  function TransferField(r: Response): seq<Header> {
    if r.chunked && !HasHeader(r.headers, "Transfer-Encoding") then [Header("Transfer-Encoding", "chunked")] else []
  }

  function LengthField(r: Response): seq<Header> {
    if !r.chunked && !HasHeader(r.headers, "Content-Length")
    then [Header("Content-Length", Print(|r.body|, 10))]
    else []
  }

  function TypeField(r: Response): seq<Header> {
    if HasHeader(r.headers, "Content-Type") then [] else [Header("Content-Type", "text/plain; charset=utf-8")]
  }

  /** The fields the serialiser adds for whatever the response does not say itself. */
  function Derived(r: Response): seq<Header> {
    ConnectionField(r) + (TransferField(r) + (LengthField(r) + TypeField(r)))
  }

  function Payload(r: Response): string {
    if r.chunked then StreamBytes([r.body]) + CHUNK_END else r.body
  }

  /** `defaultReason` is the phrase of the status table, used when the response has none. */
  function StartLine(r: Response, defaultReason: string): string {
    "HTTP/1.1 " + (PrintInt(r.status) + (" " + if r.reason == "" then defaultReason else r.reason))
  }

  function HeaderLines(hs: seq<Header>): (ls: seq<string>)
    ensures |ls| == |hs|
  {
    if hs == [] then [] else [HeaderLine(hs[0])] + HeaderLines(hs[1..])
  }

  function Serialize(r: Response, defaultReason: string): string {
    Lines([StartLine(r, defaultReason)] + HeaderLines(r.headers + Derived(r))) + (CRLF + Payload(r))
  }

  // ---------- the serialiser as the source writes it ----------

  lemma {:induction false} HeaderLinesAppend(a: seq<Header>, b: seq<Header>)
    ensures HeaderLines(a + b) == HeaderLines(a) + HeaderLines(b)
  {
    hide HeaderLine;
    if a == [] {
      assert a + b == b;
    } else {
      assert (a + b)[1..] == a[1..] + b && (a + b)[0] == a[0];
      HeaderLinesAppend(a[1..], b);
    }
  }

  lemma OneMoreHeader(done: string, start: string, hs: seq<Header>, h: Header)
    requires done == Lines([start] + HeaderLines(hs))
    ensures done + (HeaderLine(h) + CRLF) == Lines([start] + HeaderLines(hs + [h]))
  {
    HeaderLinesAppend(hs, [h]);
    assert HeaderLines([h]) == [HeaderLine(h)] by { assert [h][1..] == []; }
    assert [start] + (HeaderLines(hs) + [HeaderLine(h)]) == ([start] + HeaderLines(hs)) + [HeaderLine(h)];
    LinesAppend([start] + HeaderLines(hs), [HeaderLine(h)]);
    assert Lines([HeaderLine(h)]) == HeaderLine(h) + CRLF by { assert [HeaderLine(h)][1..] == []; }
  }

  method EmitHeader(out: string, h: Header, ghost start: string, ghost hs: seq<Header>) returns (out': string)
    requires out == Lines([start] + HeaderLines(hs))
    ensures out' == Lines([start] + HeaderLines(hs + [h]))
  {
    OneMoreHeader(out, start, hs, h);
    out' := out + (HeaderLine(h) + CRLF);
  }

  /** The response's own fields. */
  method EmitOwn(start: string, hs: seq<Header>) returns (out: string)
    ensures out == Lines([start] + HeaderLines(hs))
  {
    out := start + CRLF;
    OnlyStart(start);
    hide *;
    var i := 0;
    assert hs[..0] == [];
    while i < |hs|
      invariant 0 <= i <= |hs| && out == Lines([start] + HeaderLines(hs[..i]))
    {
      out := EmitHeader(out, hs[i], start, hs[..i]);
      assert hs[..i] + [hs[i]] == hs[..i + 1];
      i := i + 1;
    }
    assert hs[..i] == hs;
  }

  /** The derived ones, each only where it is missing. */
  method EmitDerived(head: string, r: Response, ghost start: string) returns (out: string)
    requires head == Lines([start] + HeaderLines(r.headers))
    ensures out == Lines([start] + HeaderLines(r.headers + Derived(r)))
  {
    hide Lines, HeaderLines, HasHeader, HeaderLine, Print;
    out := head;
    ghost var done := r.headers;
    if !HasHeader(r.headers, "Connection") {
      out := EmitHeader(out, Header("Connection", if r.keepAlive then "keep-alive" else "close"), start, done);
    }
    done := Grow(done, ConnectionField(r));
    if r.chunked && !HasHeader(r.headers, "Transfer-Encoding") {
      out := EmitHeader(out, Header("Transfer-Encoding", "chunked"), start, done);
    }
    done := Grow(done, TransferField(r));
    if !r.chunked && !HasHeader(r.headers, "Content-Length") {
      out := EmitHeader(out, Header("Content-Length", Print(|r.body|, 10)), start, done);
    }
    done := Grow(done, LengthField(r));
    if !HasHeader(r.headers, "Content-Type") {
      out := EmitHeader(out, Header("Content-Type", "text/plain; charset=utf-8"), start, done);
    }
    done := Grow(done, TypeField(r));
    assert done == r.headers + Derived(r);
  }

  ghost function Grow(done: seq<Header>, more: seq<Header>): (r: seq<Header>)
    ensures r == done + more
    ensures more == [] ==> r == done
  { done + more }

  method SerializeResponse(r: Response, defaultReason: string) returns (out: string)
    ensures out == Serialize(r, defaultReason)
  {
    hide Lines, HeaderLines, HeaderLine, SerializeChunk, StreamBytes, StartLine, Derived;
    var start := StartLine(r, defaultReason);
    var head := EmitOwn(start, r.headers);
    head := EmitDerived(head, r, start);
    OneWrite(r.body);
    out := head + CRLF;
    Assoc(head, CRLF, Payload(r));
    if r.chunked {
      if r.body != "" {
        Assoc(out, SerializeChunk(r.body), CHUNK_END);
        out := out + SerializeChunk(r.body);
      }
      out := out + CHUNK_END;
    } else {
      out := out + r.body;
    }
  }

  lemma OneWrite(body: string)
    ensures StreamBytes([body]) == if body == "" then "" else SerializeChunk(body)
  {
    assert [body][1..] == [];
    assert StreamBytes([]) == "";
  }

  lemma OnlyStart(start: string)
    ensures Lines([start] + HeaderLines([])) == start + CRLF
  {
    assert [start] + [] == [start] && [start][1..] == [];
  }

  // ---------- parsing the header block ----------

  lemma HeaderLinesUnfold(hs: seq<Header>)
    requires |hs| > 0
    ensures HeaderLines(hs)[0] == HeaderLine(hs[0]) && HeaderLines(hs)[1..] == HeaderLines(hs[1..])
  {}

  /** Fields that survive, within the parser's limits. */
  ghost predicate Acceptable(l: Limits, hs: seq<Header>) {
    forall i :: 0 <= i < |hs| ==> CleanHeader(hs[i]) && !Exceeds(l.headerLine, |HeaderLine(hs[i])|)
  }

  lemma ParseLast(l: Limits, h: Header, count: nat, found: seq<Header>)
    requires CleanHeader(h) && !Exceeds(l.headerLine, |HeaderLine(h)|) && !Exceeds(l.headerCount, count + 1)
    ensures ParseHeaders(l, HeaderLine(h), count, found) == Block(found + [h], count + 1)
  {
    hide IndexOf, ParseHeaders, ParseHeaderLine, HeaderLine, CleanHeader;
    var line := HeaderLine(h);
    HeaderLineRoundTrip(l, h);
    Absent(line, CRLF);
    HeadersUnfold(l, line, count, found, -1, line);
    HeadersDone(l, count + 1, found + [h]);
  }

  lemma ParseNext(l: Limits, h: Header, rest: string, count: nat, found: seq<Header>)
    requires CleanHeader(h) && !Exceeds(l.headerLine, |HeaderLine(h)|) && !Exceeds(l.headerCount, count + 1)
    ensures ParseHeaders(l, HeaderLine(h) + (CRLF + rest), count, found) ==
        ParseHeaders(l, rest, count + 1, found + [h])
  {
    hide IndexOf, ParseHeaders, ParseHeaderLine, HeaderLine, CleanHeader;
    var line := HeaderLine(h);
    HeaderLineRoundTrip(l, h);
    TakeLine(line, rest);
    HeadersUnfold(l, line + (CRLF + rest), count, found, |line|, line);
  }

  lemma AcceptableTail(l: Limits, hs: seq<Header>)
    requires |hs| > 0 && Acceptable(l, hs)
    ensures CleanHeader(hs[0]) && !Exceeds(l.headerLine, |HeaderLine(hs[0])|) && Acceptable(l, hs[1..])
  {
    hide CleanHeader, HeaderLine;
  }

  lemma {:induction false} ParseJoined(l: Limits, hs: seq<Header>, count: nat, found: seq<Header>)
    requires |hs| > 0 && Acceptable(l, hs) && !Exceeds(l.headerCount, count + |hs|)
    ensures ParseHeaders(l, Joined(HeaderLines(hs)), count, found) == Block(found + hs, count + |hs|)
    decreases |hs|
  {
    hide *;
    AcceptableTail(l, hs);
    HeaderLinesUnfold(hs);
    JoinedUnfold(HeaderLines(hs));
    CountLess(l, count + 1, count + |hs|);
    if |hs| == 1 {
      ParseLast(l, hs[0], count, found);
      assert [hs[0]] == hs;
    } else {
      ParseNext(l, hs[0], Joined(HeaderLines(hs[1..])), count, found);
      ParseJoined(l, hs[1..], count + 1, found + [hs[0]]);
      assert (found + [hs[0]]) + hs[1..] == found + hs;
    }
  }

  lemma CountLess(l: Limits, a: nat, b: nat)
    requires a <= b
    ensures !Exceeds(l.headerCount, b) ==> !Exceeds(l.headerCount, a)
  {}

  // ---------- the theorem ----------

  predicate CleanStart(l: Limits, start: string) {
    '\r' !in start && !Exceeds(l.startLine, |start|)
  }

  lemma DigitsAreClean(n: nat)
    ensures Print(n, 10) != "" && '\r' !in Print(n, 10) && Tight(Print(n, 10), IsSpace)
  {
    PrintIsDigits(n, 10);
    var s := Print(n, 10);
    forall i | 0 <= i < |s| ensures s[i] != '\r' && !IsSpace(s[i]) { DigitIsPlain(s[i]); }
  }

  lemma ConnectionIsClean(r: Response)
    ensures forall h :: h in ConnectionField(r) ==> CleanHeader(h)
  {
    hide HasHeader;
  }

  lemma TransferIsClean(r: Response)
    ensures forall h :: h in TransferField(r) ==> CleanHeader(h)
  {
    hide HasHeader;
  }

  lemma LengthIsClean(r: Response)
    ensures forall h :: h in LengthField(r) ==> CleanHeader(h)
  {
    DigitsAreClean(|r.body|);
    hide HasHeader, Print, IsSpace;
    var h := Header("Content-Length", Print(|r.body|, 10));
    assert CleanHeader(h) by { PlainName(h.name); }
    hide CleanHeader;
  }

  lemma PlainName(name: string)
    requires name == "Content-Length"
    ensures ':' !in name && '\r' !in name && Tight(name, IsSpace)
  {}

  lemma TypeIsClean(r: Response)
    ensures forall h :: h in TypeField(r) ==> CleanHeader(h)
  {
    var h := Header("Content-Type", "text/plain; charset=utf-8");
    assert CleanHeader(h);
    hide HasHeader, CleanHeader;
  }

  lemma DerivedAreClean(r: Response)
    ensures forall h :: h in Derived(r) ==> CleanHeader(h)
  {
    ConnectionIsClean(r);
    TransferIsClean(r);
    LengthIsClean(r);
    TypeIsClean(r);
    hide CleanHeader, ConnectionField, TransferField, LengthField, TypeField;
  }

  /** There is always a Connection field, the response's own or a derived one. */
  lemma SomeHeader(r: Response)
    ensures |r.headers + Derived(r)| > 0
  {}

  /** A head of one start line and a header block, as the parser cuts it. */
  lemma HeadUnfold(l: Limits, mode: Mode, start: string, block: string, hs: seq<Header>, count: nat, payload: string)
    requires mode != RequestOnly && "HTTP/" <= start && CleanStart(l, start)
    requires ParseHeaders(l, block, 0, []) == Block(hs, count)
    requires var head := start + (CRLF + block);
             IndexOf(head + (BLANK_LINE + payload), BLANK_LINE) == |head|
    ensures ParseHead(l, mode, (start + (CRLF + block)) + (BLANK_LINE + payload)) == Head(start, hs, payload)
  {
    hide IndexOf, ParseHeaders;
    TakeLine(start, block);
    var head := start + (CRLF + block);
    var raw := head + (BLANK_LINE + payload);
    assert raw[..|head|] == head && raw[|head| + 4..] == payload;
  }

  /** The serialised lines as one start line, a header block and a blank line. */
  lemma LinesAsHead(start: string, rest: seq<string>, payload: string)
    requires |rest| > 0
    ensures Joined([start] + rest) == start + (CRLF + Joined(rest))
    ensures Lines([start] + rest) + (CRLF + payload) == Joined([start] + rest) + (BLANK_LINE + payload)
  {
    var ls := [start] + rest;
    JoinedIsLines(ls);
    assert ls[1..] == rest;
    JoinedUnfold(ls);
    assert BLANK_LINE == CRLF + CRLF;
    hide *;
    Assoc(Joined(ls), CRLF, CRLF + payload);
    Assoc(CRLF, CRLF, payload);
  }

  lemma HeadOfLines(l: Limits, mode: Mode, start: string, hs: seq<Header>, payload: string)
    requires mode != RequestOnly && "HTTP/" <= start && CleanStart(l, start) && |hs| > 0
    requires Acceptable(l, hs) && !Exceeds(l.headerCount, |hs|)
    ensures ParseHead(l, mode, Lines([start] + HeaderLines(hs)) + (CRLF + payload)) == Head(start, hs, payload)
  {
    CleanHeaderLines(l, hs);
    LinesClean(start, HeaderLines(hs));
    hide *;
    ParseJoined(l, hs, 0, []);
    assert [] + hs == hs;
    FirstBlankLine([start] + HeaderLines(hs), payload);
    LinesAsHead(start, HeaderLines(hs), payload);
    HeadUnfold(l, mode, start, Joined(HeaderLines(hs)), hs, |hs|, payload);
  }

  lemma LinesClean(start: string, rest: seq<string>)
    requires "HTTP/" <= start && '\r' !in start && CleanLines(rest)
    ensures CleanLines([start] + rest)
  {}

  lemma {:induction false} CleanHeaderLines(l: Limits, hs: seq<Header>)
    requires Acceptable(l, hs)
    ensures CleanLines(HeaderLines(hs))
  {
    if hs != [] {
      HeaderLineRoundTrip(l, hs[0]);
      CleanHeaderLines(l, hs[1..]);
    }
  }

  /** A clean reason and clean fields, within the parser's limits. */
  ghost predicate Presentable(l: Limits, r: Response, defaultReason: string) {
    && '\r' !in r.reason && '\r' !in defaultReason && !Exceeds(l.startLine, |StartLine(r, defaultReason)|)
    && (forall i :: 0 <= i < |r.headers| ==> CleanHeader(r.headers[i]))
    && (forall i :: 0 <= i < |r.headers + Derived(r)| ==>
        !Exceeds(l.headerLine, |HeaderLine((r.headers + Derived(r))[i])|))
    && !Exceeds(l.headerCount, |r.headers + Derived(r)|)
  }

  /** Any presentable response: the parser finds the response's own fields followed
      by the derived ones, in order, and is left with exactly the payload. */
  lemma ResponseRoundTrip(l: Limits, mode: Mode, r: Response, defaultReason: string)
    requires mode != RequestOnly
    ensures Presentable(l, r, defaultReason) ==>
      ParseHead(l, mode, Serialize(r, defaultReason)) ==
          Head(StartLine(r, defaultReason), r.headers + Derived(r), Payload(r))
  {
    if Presentable(l, r, defaultReason) {
      AllAcceptable(l, r);
      SomeHeader(r);
      StartIsClean(r, defaultReason);
      hide CleanHeader, HeaderLine, StartLine, ParseHead, Lines, HeaderLines, Derived, HasHeader, Payload, Acceptable;
      HeadOfLines(l, mode, StartLine(r, defaultReason), r.headers + Derived(r), Payload(r));
    }
  }

  lemma AllAcceptable(l: Limits, r: Response)
    requires forall i :: 0 <= i < |r.headers| ==> CleanHeader(r.headers[i])
    requires forall i :: 0 <= i < |r.headers + Derived(r)| ==>
        !Exceeds(l.headerLine, |HeaderLine((r.headers + Derived(r))[i])|)
    ensures Acceptable(l, r.headers + Derived(r))
  {
    DerivedAreClean(r);
    hide CleanHeader, HeaderLine, Derived, Exceeds;
    var hs := r.headers + Derived(r);
    forall i | 0 <= i < |hs| ensures CleanHeader(hs[i]) {
      assert hs[i] in r.headers || hs[i] in Derived(r);
    }
  }

  lemma StartIsClean(r: Response, defaultReason: string)
    requires '\r' !in r.reason && '\r' !in defaultReason
    ensures '\r' !in StartLine(r, defaultReason) && "HTTP/" <= StartLine(r, defaultReason)
  {
    DigitsAreClean(if r.status < 0 then -r.status else r.status);
    assert StartLine(r, defaultReason)[..5] == "HTTP/";
  }

  /** A chunked payload decodes to the body, with nothing left over. */
  lemma ChunkedPayloadRoundTrip(l: Limits, r: Response, count: nat)
    requires r.chunked && Sendable(l, r.body)
    ensures var w := WalkChunks(l, Payload(r), count, []);
            w.Walked? && Concat(w.chunks) == r.body && w.trailers == [] && w.rest == ""
  {
    StreamRoundTrip(l, [r.body], "", count);
    assert CHUNK_END + "" == CHUNK_END;
    assert Concat([r.body]) == r.body by { assert [r.body][1..] == []; assert Concat([]) == ""; }
  }
}
