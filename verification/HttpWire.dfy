/**
  HTTP/1.1 messages on the wire: the header block and the chunk walker of the
  parser, the serialisers of the server and the chunked stream writer, and the
  theorems that the former undo the latter (sections 2.1, 5 and 7.1 of RFC 9112).
 */
module HttpWire {
  import opened Wrappers
  import opened Text
  import opened TextLines

  datatype Header = Header(name: string, value: string)

  /** A limit of zero means no limit. */
  datatype Limits = Limits(headerLine: nat, headerCount: nat, startLine: nat)

  datatype Mode = RequestOnly | ResponseOnly | Both

  datatype ParseError = Protocol | HeaderLineTooLong | HeaderCountExceeded | StartLineTooLong

  predicate Exceeds(limit: nat, value: nat) { limit > 0 && value > limit }

  // ---------- header lines ----------

  datatype LineResult = Field(header: Header) | BadLine(error: ParseError)

  function ParseHeaderLine(l: Limits, line: string): LineResult {
    if Exceeds(l.headerLine, |line|) then BadLine(HeaderLineTooLong)
    else
      var colon := IndexOf(line, ":");
      if colon <= 0 then BadLine(Protocol)
      else
        var name, value := Trim(line[..colon], IsSpace), Trim(line[colon + 1..], IsSpace);
        if name == "" then BadLine(Protocol) else Field(Header(name, value))
  }

  function HeaderLine(h: Header): string { h.name + (": " + h.value) }

  /** A field that means the same after printing and parsing (section 5 of RFC 9112). */
  predicate CleanHeader(h: Header) {
    && h.name != "" && ':' !in h.name && '\r' !in h.name && '\r' !in h.value
    && Tight(h.name, IsSpace) && Tight(h.value, IsSpace)
  }

  lemma HeaderLineRoundTrip(l: Limits, h: Header)
    requires CleanHeader(h) && !Exceeds(l.headerLine, |HeaderLine(h)|)
    ensures ParseHeaderLine(l, HeaderLine(h)) == Field(h)
    ensures '\r' !in HeaderLine(h) && HeaderLine(h) != ""
  {
    var line := HeaderLine(h);
    assert line == h.name + ":" + (" " + h.value);
    LineEnd(h.name, ":", " " + h.value);
    assert line[..|h.name|] == h.name && line[|h.name| + 1..] == " " + h.value;
    TrimTight(h.name, IsSpace);
    TrimOneSpace(h.value, IsSpace);
  }

  /** Finds the end of the line that starts at `pos`; -1 when there is none. */
  method FindLine(raw: string, pos: nat) returns (at: int, line: string)
    requires pos <= |raw|
    ensures at == IndexOf(raw[pos..], CRLF)
    ensures at >= 0 ==> pos + at + 2 <= |raw| && line == raw[pos..][..at] && raw[pos + at + 2..] == raw[pos..][at + 2..]
    ensures at < 0 ==> line == raw[pos..]
  {
    at := IndexOf(raw[pos..], CRLF);
    line := if at < 0 then raw[pos..] else raw[pos..][..at];
    if at >= 0 {
      DropDrop(raw, pos, at + 2);
    }
  }

  // ---------- the header block ----------

  datatype BlockResult = Block(headers: seq<Header>, count: nat) | BadBlock(error: ParseError)

  function ParseHeaders(l: Limits, block: string, count: nat, found: seq<Header>): BlockResult
    decreases |block|
  {
    if block == "" then Block(found, count)
    else
      var end := IndexOf(block, CRLF);
      var line := if end < 0 then block else block[..end];
      if line == "" then (if end < 0 then Block(found, count) else ParseHeaders(l, block[end + 2..], count, found))
      else if Exceeds(l.headerCount, count + 1) then BadBlock(HeaderCountExceeded)
      else
        match ParseHeaderLine(l, line)
        case BadLine(e) => BadBlock(e)
        case Field(h) =>
          if end < 0 then Block(found + [h], count + 1)
          else ParseHeaders(l, block[end + 2..], count + 1, found + [h])
  }

  lemma HeadersDone(l: Limits, count: nat, found: seq<Header>)
    ensures ParseHeaders(l, "", count, found) == Block(found, count)
  {}

  lemma HeadersUnfold(l: Limits, block: string, count: nat, found: seq<Header>, at: int, line: string)
    requires block != "" && at == IndexOf(block, CRLF) && line == if at < 0 then block else block[..at]
    ensures var rest := if at < 0 then "" else block[at + 2..];
            ParseHeaders(l, block, count, found) ==
              if line == "" then ParseHeaders(l, rest, count, found)
              else if Exceeds(l.headerCount, count + 1) then BadBlock(HeaderCountExceeded)
              else match ParseHeaderLine(l, line)
                   case BadLine(e) => BadBlock(e)
                   case Field(h) => ParseHeaders(l, rest, count + 1, found + [h])
  {}

  method ParseInitialHeaders(l: Limits, block: string, headerCount: nat) returns (r: BlockResult)
    ensures r == ParseHeaders(l, block, headerCount, [])
  {
    var output: seq<Header> := [];
    var count := headerCount;
    var begin := 0;
    hide *;
    assert block[0..] == block;
    while begin < |block|
      invariant 0 <= begin <= |block|
      invariant ParseHeaders(l, block[begin..], count, output) == ParseHeaders(l, block, headerCount, [])
    {
      var at, line := FindLine(block, begin);
      HeadersUnfold(l, block[begin..], count, output, at, line);
      if line != "" {
        if Exceeds(l.headerCount, count + 1) {
          return BadBlock(HeaderCountExceeded);
        }
        match ParseHeaderLine(l, line) {
          case BadLine(e) => return BadBlock(e);
          case Field(h) =>
            output := output + [h];
            count := count + 1;
        }
      }
      if at < 0 {
        HeadersDone(l, count, output);
        return Block(output, count);
      }
      begin := begin + at + 2;
    }
    assert block[begin..] == "";
    HeadersDone(l, count, output);
    r := Block(output, count);
  }

  // ---------- splitting off the head ----------

  datatype HeadResult =
    | Incomplete
    | Head(startLine: string, headers: seq<Header>, rest: string)
    | BadHead(error: ParseError)

  function ParseHead(l: Limits, mode: Mode, pending: string): HeadResult {
    var end := IndexOf(pending, BLANK_LINE);
    if end < 0 then
      if mode == ResponseOnly && |pending| >= 5 && pending[..5] != "HTTP/" then BadHead(Protocol) else Incomplete
    else
      var head := pending[..end];
      var first := IndexOf(head, CRLF);
      var startLine := if first < 0 then head else head[..first];
      var isResponse := "HTTP/" <= startLine;
      if Exceeds(l.startLine, |startLine|) then BadHead(StartLineTooLong)
      else if (mode == RequestOnly && isResponse) || (mode == ResponseOnly && !isResponse) then BadHead(Protocol)
      else if first < 0 then Head(startLine, [], pending[end + 4..])
      else
        match ParseHeaders(l, head[first + 2..], 0, [])
        case BadBlock(e) => BadHead(e)
        case Block(headers, _) => Head(startLine, headers, pending[end + 4..])
  }

  // ---------- chunks ----------

  const TWO_TO_64: nat := 0x1_0000_0000_0000_0000

  /** `std::stoull` in base sixteen: leading space, a sign, `0x`, digits, then anything. */
  function Stoull16(text: string): Option<nat> {
    var t := SkipFront(text, IsSpace);
    var negative := t != "" && t[0] == '-';
    var u := if t != "" && (t[0] == '-' || t[0] == '+') then t[1..] else t;
    var v := if |u| >= 3 && u[0] == '0' && (u[1] == 'x' || u[1] == 'X') && DigitValue(u[2]) < 16 then u[2..] else u;
    var n := DigitRun(v, 16);
    var value := Number(v[..n], 16);
    if n == 0 || value >= TWO_TO_64 then None
    else Some(if negative && value > 0 then TWO_TO_64 - value else value)
  }

  datatype WalkResult =
    | Walked(chunks: seq<string>, trailers: seq<Header>, count: nat, rest: string)
    | BadWalk(error: ParseError)

  function WalkTrailers(l: Limits, raw: string, count: nat, trailers: seq<Header>, chunks: seq<string>): WalkResult
    decreases |raw|
  {
    var end := IndexOf(raw, CRLF);
    if end < 0 then BadWalk(Protocol)
    else if end == 0 then Walked(chunks, trailers, count, raw[2..])
    else if Exceeds(l.headerCount, count + 1) then BadWalk(HeaderCountExceeded)
    else
      match ParseHeaderLine(l, raw[..end])
      case BadLine(e) => BadWalk(e)
      case Field(h) => WalkTrailers(l, raw[end + 2..], count + 1, trailers + [h], chunks)
  }

  /** The size announced by a chunk line, extensions after a semicolon ignored. */
  function ChunkSize(l: Limits, line: string): (Option<nat>, ParseError) {
    if Exceeds(l.headerLine, |line|) then (None, HeaderLineTooLong)
    else
      var semi := IndexOf(line, ";");
      var hex := Trim(if semi < 0 then line else line[..semi], IsSpace);
      if hex == "" then (None, Protocol) else (Stoull16(hex), Protocol)
  }

  function WalkChunks(l: Limits, raw: string, count: nat, chunks: seq<string>): WalkResult
    decreases |raw|
  {
    var end := IndexOf(raw, CRLF);
    if end < 0 then BadWalk(Protocol)
    else
      var (size, error) := ChunkSize(l, raw[..end]);
      var body := raw[end + 2..];
      if size.None? then BadWalk(error)
      else if size.value == 0 then WalkTrailers(l, body, count, [], chunks)
      else if |body| < size.value + 2 then BadWalk(Protocol)
      else if body[size.value..size.value + 2] != CRLF then BadWalk(Protocol)
      else WalkChunks(l, body[size.value + 2..], count, chunks + [body[..size.value]])
  }

  lemma TrailersUnfold(l: Limits, raw: string, count: nat, trailers: seq<Header>, chunks: seq<string>, at: int)
    requires at == IndexOf(raw, CRLF)
    ensures WalkTrailers(l, raw, count, trailers, chunks) ==
              if at < 0 then BadWalk(Protocol)
              else if at == 0 then Walked(chunks, trailers, count, raw[2..])
              else if Exceeds(l.headerCount, count + 1) then BadWalk(HeaderCountExceeded)
              else match ParseHeaderLine(l, raw[..at])
                   case BadLine(e) => BadWalk(e)
                   case Field(h) => WalkTrailers(l, raw[at + 2..], count + 1, trailers + [h], chunks)
  {}

  lemma ChunksUnfold(l: Limits, raw: string, count: nat, chunks: seq<string>, at: int)
    requires at == IndexOf(raw, CRLF)
    ensures at < 0 ==> WalkChunks(l, raw, count, chunks) == BadWalk(Protocol)
    ensures at >= 0 ==>
              var (size, error) := ChunkSize(l, raw[..at]);
              var body := raw[at + 2..];
              WalkChunks(l, raw, count, chunks) ==
                if size.None? then BadWalk(error)
                else if size.value == 0 then WalkTrailers(l, body, count, [], chunks)
                else if |body| < size.value + 2 || body[size.value..size.value + 2] != CRLF then BadWalk(Protocol)
                else WalkChunks(l, body[size.value + 2..], count, chunks + [body[..size.value]])
  {}

  lemma DropTake(s: string, a: nat, b: nat)
    requires a + b + 2 <= |s|
    ensures s[a..][b..b + 2] == s[a + b..a + b + 2]
  {}

  /** The walker over positions of the whole message. */
  method ParseChunkedTrailers(l: Limits, raw: string, bodyOffset: nat, headerCount: nat) returns (r: WalkResult)
    requires bodyOffset <= |raw|
    ensures r == WalkChunks(l, raw[bodyOffset..], headerCount, [])
  {
    hide *;
    var pos := bodyOffset;
    var visited: seq<string> := [];
    while true
      invariant bodyOffset <= pos <= |raw|
      invariant WalkChunks(l, raw[pos..], headerCount, visited) == WalkChunks(l, raw[bodyOffset..], headerCount, [])
      decreases |raw| - pos
    {
      var at, line := FindLine(raw, pos);
      ChunksUnfold(l, raw[pos..], headerCount, visited, at);
      if at < 0 {
        return BadWalk(Protocol);
      }
      var (size, error) := ChunkSize(l, line);
      if size.None? {
        return BadWalk(error);
      }
      pos := pos + at + 2;
      if size.value == 0 {
        r := ParseTrailers(l, raw, pos, headerCount, visited);
        return;
      }
      if |raw| < pos + size.value + 2 {
        return BadWalk(Protocol);
      }
      visited := visited + [raw[pos..][..size.value]];
      DropDrop(raw, pos, size.value + 2);
      DropTake(raw, pos, size.value);
      pos := pos + size.value;
      if raw[pos..pos + 2] != CRLF {
        return BadWalk(Protocol);
      }
      pos := pos + 2;
    }
  }

  method ParseTrailers(l: Limits, raw: string, start: nat, headerCount: nat, visited: seq<string>)
      returns (r: WalkResult)
    requires start <= |raw|
    ensures r == WalkTrailers(l, raw[start..], headerCount, [], visited)
  {
    hide *;
    var pos, count := start, headerCount;
    var trailers: seq<Header> := [];
    while true
      invariant start <= pos <= |raw|
      invariant WalkTrailers(l, raw[pos..], count, trailers, visited) ==
          WalkTrailers(l, raw[start..], headerCount, [], visited)
      decreases |raw| - pos
    {
      var at, line := FindLine(raw, pos);
      TrailersUnfold(l, raw[pos..], count, trailers, visited, at);
      if at < 0 {
        return BadWalk(Protocol);
      }
      if at == 0 {
        return Walked(visited, trailers, count, raw[pos + 2..]);
      }
      if Exceeds(l.headerCount, count + 1) {
        return BadWalk(HeaderCountExceeded);
      }
      match ParseHeaderLine(l, line) {
        case BadLine(e) => return BadWalk(e);
        case Field(h) =>
          trailers := trailers + [h];
          count := count + 1;
      }
      pos := pos + at + 2;
    }
  }

  // ---------- the serialisers ----------

  function SerializeChunk(data: string): string { (Print(|data|, 16) + CRLF) + (data + CRLF) }

  const CHUNK_END: string := "0\r\n\r\n"

  /** The bytes a stream of writes puts on the wire, the terminator not included. */
  function StreamBytes(writes: seq<string>): string {
    if writes == [] then ""
    else (if writes[0] == "" then "" else SerializeChunk(writes[0])) + StreamBytes(writes[1..])
  }

  class SocketStreamWriter {
    var closed: bool
    var socketValid: bool
    /** Everything written to the socket so far. */
    var sent: string

    constructor (socketValid: bool)
      ensures !closed && this.socketValid == socketValid && sent == ""
    {
      closed, sent := false, "";
      this.socketValid := socketValid;
    }

    /** Empty writes are skipped: they would read as the terminator. */
    method Write(chunk: string)
      modifies this`sent
      ensures sent == old(sent) + if closed || !socketValid then "" else StreamBytes([chunk])
    {
      assert StreamBytes([chunk]) == (if chunk == "" then "" else SerializeChunk(chunk)) + StreamBytes([chunk][1..]);
      if closed || chunk == "" || !socketValid {
        return;
      }
      sent := sent + SerializeChunk(chunk);
    }

    method Close()
      modifies this`closed, this`sent
      ensures closed && sent == old(sent) + if old(closed) || !socketValid then "" else CHUNK_END
    {
      if closed || !socketValid {
        closed := true;
        return;
      }
      closed := true;
      sent := sent + CHUNK_END;
    }
  }

  lemma {:induction false} StreamBytesAppend(writes: seq<string>, chunk: string)
    ensures StreamBytes(writes + [chunk]) == StreamBytes(writes) + StreamBytes([chunk])
  {
    if writes == [] {
      assert writes + [chunk] == [chunk];
    } else {
      StreamBytesUnfold(writes);
      StreamBytesUnfold(writes + [chunk]);
      assert (writes + [chunk])[1..] == writes[1..] + [chunk];
      hide *;
      StreamBytesAppend(writes[1..], chunk);
      Assoc(if writes[0] == "" then "" else SerializeChunk(writes[0]), StreamBytes(writes[1..]), StreamBytes([chunk]));
    }
  }

  lemma StreamBytesUnfold(writes: seq<string>)
    requires writes != []
    ensures StreamBytes(writes) ==
        (if writes[0] == "" then "" else SerializeChunk(writes[0])) + StreamBytes(writes[1..])
  {}

  /** What a stream handler that writes these chunks and closes puts on the wire. */
  method StreamAll(writer: SocketStreamWriter, writes: seq<string>)
    requires !writer.closed && writer.socketValid && writer.sent == ""
    modifies writer
    ensures writer.closed && writer.sent == StreamBytes(writes) + CHUNK_END
  {
    hide SerializeChunk;
    var i := 0;
    assert StreamBytes(writes[..0]) == "";
    while i < |writes|
      invariant 0 <= i <= |writes| && !writer.closed && writer.socketValid && writer.sent == StreamBytes(writes[..i])
    {
      StreamBytesAppend(writes[..i], writes[i]);
      assert writes[..i] + [writes[i]] == writes[..i + 1];
      writer.Write(writes[i]);
      i := i + 1;
    }
    assert writes[..i] == writes;
    writer.Close();
  }

  // ---------- the walker undoes the writer ----------

  ghost predicate NoneOf(s: string, drop: char -> bool) {
    forall i :: 0 <= i < |s| ==> !drop(s[i])
  }

  lemma DigitIsPlain(c: char)
    requires DigitValue(c) < 16
    ensures !IsSpace(c) && c != '\r' && c != '\n' && c != ';' && c != '-' && c != '+' && c != 'x' && c != 'X'
  {}

  lemma HexIsPlain(s: string)
    requires AllDigits(s, 16)
    ensures NoneOf(s, IsSpace) && '\r' !in s && ';' !in s
  {
    forall i | 0 <= i < |s| ensures !IsSpace(s[i]) && s[i] != '\r' && s[i] != ';' { DigitIsPlain(s[i]); }
  }

  lemma StoullOfHex(s: string)
    requires |s| > 0 && AllDigits(s, 16) && Number(s, 16) < TWO_TO_64
    ensures Stoull16(s) == Some(Number(s, 16))
  {
    DigitIsPlain(s[0]);
    if |s| > 1 { DigitIsPlain(s[1]); }
    assert SkipFront(s, IsSpace) == s;
    DigitRunIs(s, "", 16);
    assert s + "" == s && s[..|s|] == s;
  }

  lemma SizeLine(l: Limits, n: nat)
    requires n < TWO_TO_64 && !Exceeds(l.headerLine, |Print(n, 16)|)
    ensures ChunkSize(l, Print(n, 16)).0 == Some(n)
  {
    var hex := Print(n, 16);
    PrintIsDigits(n, 16);
    NumberOfPrint(n, 16);
    HexIsPlain(hex);
    Absent(hex, ";");
    TrimTight(hex, IsSpace);
    StoullOfHex(hex);
  }

  /** Within the parser's line limit and the size type of the source. */
  predicate Sendable(l: Limits, data: string) {
    |data| < TWO_TO_64 && !Exceeds(l.headerLine, |Print(|data|, 16)|)
  }

  lemma WalkOneChunk(l: Limits, data: string, rest: string, count: nat, chunks: seq<string>)
    requires data != "" && Sendable(l, data)
    ensures WalkChunks(l, SerializeChunk(data) + rest, count, chunks) == WalkChunks(l, rest, count, chunks + [data])
  {
    var hex := Print(|data|, 16);
    SizeLine(l, |data|);
    PrintIsDigits(|data|, 16);
    HexIsPlain(hex);
    WalkAfterLine(l, hex, data, rest, count, chunks);
    assert SerializeChunk(data) + rest == hex + CRLF + (data + CRLF + rest);
  }

  lemma WalkAfterLine(l: Limits, line: string, data: string, rest: string, count: nat, chunks: seq<string>)
    requires '\r' !in line && ChunkSize(l, line).0 == Some(|data|) && data != ""
    ensures WalkChunks(l, line + CRLF + (data + CRLF + rest), count, chunks) ==
        WalkChunks(l, rest, count, chunks + [data])
  {
    var body := data + CRLF + rest;
    var raw := line + CRLF + body;
    LineEnd(line, CRLF, body);
    assert raw[..|line|] == line && raw[|line| + 2..] == body;
    assert body[..|data|] == data && body[|data|..|data| + 2] == CRLF && body[|data| + 2..] == rest;
  }

  lemma WalkEnd(l: Limits, rest: string, count: nat, chunks: seq<string>)
    ensures WalkChunks(l, CHUNK_END + rest, count, chunks) == Walked(chunks, [], count, rest)
  {
    var raw := CHUNK_END + rest;
    assert Print(0, 16) == "0";
    SizeLine(l, 0);
    assert raw == "0" + CRLF + (CRLF + rest);
    LineEnd("0", CRLF, CRLF + rest);
    assert raw[..1] == "0" && raw[3..] == CRLF + rest;
    LineEnd("", CRLF, rest);
    assert "" + CRLF + rest == CRLF + rest;
    assert (CRLF + rest)[2..] == rest;
  }

  function NonEmpty(writes: seq<string>): seq<string> {
    if writes == [] then [] else (if writes[0] == "" then [] else [writes[0]]) + NonEmpty(writes[1..])
  }

  function Concat(parts: seq<string>): string {
    if parts == [] then "" else parts[0] + Concat(parts[1..])
  }

  lemma {:induction false} NonEmptyConcat(writes: seq<string>)
    ensures Concat(NonEmpty(writes)) == Concat(writes)
  {
    if writes != [] {
      NonEmptyConcat(writes[1..]);
      if writes[0] == "" {
        assert NonEmpty(writes) == NonEmpty(writes[1..]) && Concat(writes) == Concat(writes[1..]);
      } else {
        assert NonEmpty(writes)[1..] == NonEmpty(writes[1..]);
      }
    }
  }

  lemma {:induction false} WalkStream(l: Limits, writes: seq<string>, rest: string, count: nat, chunks: seq<string>)
    requires forall i :: 0 <= i < |writes| ==> Sendable(l, writes[i])
    ensures WalkChunks(l, StreamBytes(writes) + (CHUNK_END + rest), count, chunks)
         == Walked(chunks + NonEmpty(writes), [], count, rest)
    decreases |writes|
  {
    if writes == [] {
      assert StreamBytes(writes) + (CHUNK_END + rest) == CHUNK_END + rest && chunks + [] == chunks;
      WalkEnd(l, rest, count, chunks);
    } else {
      var tail := StreamBytes(writes[1..]) + (CHUNK_END + rest);
      if writes[0] == "" {
        assert StreamBytes(writes) == StreamBytes(writes[1..]);
        WalkStream(l, writes[1..], rest, count, chunks);
        assert NonEmpty(writes) == NonEmpty(writes[1..]);
      } else {
        Assoc(SerializeChunk(writes[0]), StreamBytes(writes[1..]), CHUNK_END + rest);
        WalkOneChunk(l, writes[0], tail, count, chunks);
        WalkStream(l, writes[1..], rest, count, chunks + [writes[0]]);
        assert chunks + ([writes[0]] + NonEmpty(writes[1..])) == (chunks + [writes[0]]) + NonEmpty(writes[1..]);
      }
    }
  }

  /** Any sequence of writes, empty ones included, followed by close: the walker
      accepts the bytes, the chunks it visits hold exactly the written data, it
      stops right behind the terminator and finds no trailers. */
  lemma StreamRoundTrip(l: Limits, writes: seq<string>, rest: string, count: nat)
    requires forall i :: 0 <= i < |writes| ==> Sendable(l, writes[i])
    ensures var r := WalkChunks(l, StreamBytes(writes) + (CHUNK_END + rest), count, []);
            r.Walked? && Concat(r.chunks) == Concat(writes) && r.trailers == [] && r.count == count && r.rest == rest
  {
    WalkStream(l, writes, rest, count, []);
    assert [] + NonEmpty(writes) == NonEmpty(writes);
    NonEmptyConcat(writes);
  }
}
