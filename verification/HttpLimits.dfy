/** The parser's limits, trailers, and chunk sizes as other senders write them. */
module HttpLimits {
  import opened Wrappers
  import opened Text
  import opened TextLines
  import opened HttpWire
  import opened HttpResponse

  /** A limit of zero is none. */
  predicate Over(limit: nat, n: nat) { limit != 0 && limit < n }

  lemma OverFacts(limit: nat, a: nat, b: nat)
    requires a <= b
    ensures Over(limit, a) == Exceeds(limit, a) && (Over(limit, a) ==> Over(limit, b))
  {}

  /** A header line is refused for its length exactly when it is longer than the limit. */
  lemma LineLimitIsExact(l: Limits, line: string)
    ensures ParseHeaderLine(l, line) == BadLine(HeaderLineTooLong) <==> Over(l.headerLine, |line|)
  {}

  /** Well-formed fields are all read, or refused for their number exactly when there are too many. */
  lemma {:induction false} CountLimitIsExact(l: Limits, hs: seq<Header>, count: nat, found: seq<Header>)
    requires |hs| > 0 && Acceptable(l, hs)
    ensures ParseHeaders(l, Joined(HeaderLines(hs)), count, found) ==
              if Over(l.headerCount, count + |hs|) then BadBlock(HeaderCountExceeded)
              else Block(found + hs, count + |hs|)
    decreases |hs|
  {
    hide *;
    OverFacts(l.headerCount, count + 1, count + |hs|);
    if Over(l.headerCount, count + 1) {
      RefuseFirst(l, hs, count, found);
    } else {
      AcceptableTail(l, hs);
      HeaderLinesUnfold(hs);
      JoinedUnfold(HeaderLines(hs));
      if |hs| == 1 {
        ParseLast(l, hs[0], count, found);
        assert [hs[0]] == hs;
      } else {
        ParseNext(l, hs[0], Joined(HeaderLines(hs[1..])), count, found);
        CountLimitIsExact(l, hs[1..], count + 1, found + [hs[0]]);
        assert (found + [hs[0]]) + hs[1..] == found + hs;
      }
    }
  }

  lemma RefuseFirst(l: Limits, hs: seq<Header>, count: nat, found: seq<Header>)
    requires |hs| > 0 && Acceptable(l, hs) && Over(l.headerCount, count + 1)
    ensures ParseHeaders(l, Joined(HeaderLines(hs)), count, found) == BadBlock(HeaderCountExceeded)
  {
    var line := HeaderLine(hs[0]);
    AcceptableTail(l, hs);
    HeaderLineRoundTrip(l, hs[0]);
    HeaderLinesUnfold(hs);
    JoinedUnfold(HeaderLines(hs));
    hide IndexOf, ParseHeaders, ParseHeaderLine, Joined, HeaderLines, HeaderLine, CleanHeader, Acceptable;
    if |hs| == 1 {
      Absent(line, CRLF);
      HeadersUnfold(l, line, count, found, -1, line);
    } else {
      var rest := Joined(HeaderLines(hs[1..]));
      TakeLine(line, rest);
      HeadersUnfold(l, line + (CRLF + rest), count, found, |line|, line);
    }
  }

  // ---------- the start line ----------

  /** A message of the kind the parser does not expect. */
  predicate Unexpected(mode: Mode, start: string) {
    if "HTTP/" <= start then mode == RequestOnly else mode == ResponseOnly
  }

  /** How a head fares: too long a start line is refused first, then the wrong kind of
      message, then the header block decides. */
  lemma StartLineDecides(l: Limits, mode: Mode, start: string, block: string, payload: string)
    requires '\r' !in start
    requires IndexOf((start + (CRLF + block)) + (BLANK_LINE + payload), BLANK_LINE) == |start + (CRLF + block)|
    ensures ParseHead(l, mode, (start + (CRLF + block)) + (BLANK_LINE + payload)) ==
              if Over(l.startLine, |start|) then BadHead(StartLineTooLong)
              else if Unexpected(mode, start) then BadHead(Protocol)
              else if ParseHeaders(l, block, 0, []).BadBlock? then BadHead(ParseHeaders(l, block, 0, []).error)
              else Head(start, ParseHeaders(l, block, 0, []).headers, payload)
  {
    hide IndexOf, ParseHeaders;
    TakeLine(start, block);
    var head := start + (CRLF + block);
    var raw := head + (BLANK_LINE + payload);
    assert raw[..|head|] == head && raw[|head| + 4..] == payload;
  }

  /** A head that is only a start line has no fields. */
  lemma NoFields(l: Limits, mode: Mode, start: string, payload: string)
    requires '\r' !in start
    ensures ParseHead(l, mode, start + (BLANK_LINE + payload)) ==
              if Over(l.startLine, |start|) then BadHead(StartLineTooLong)
              else if Unexpected(mode, start) then BadHead(Protocol)
              else Head(start, [], payload)
  {
    var raw := start + (BLANK_LINE + payload);
    LineEnd(start, BLANK_LINE, payload);
    Assoc(start, BLANK_LINE, payload);
    Absent(start, CRLF);
    hide IndexOf, ParseHeaders;
    assert raw[..|start|] == start && raw[|start| + 4..] == payload;
  }

  /** Any serialised response with clean fields, against any limits and in any mode. */
  lemma ResponseOutcome(l: Limits, mode: Mode, r: Response, defaultReason: string)
    requires '\r' !in r.reason && '\r' !in defaultReason && Acceptable(l, r.headers + Derived(r))
    ensures var start, hs := StartLine(r, defaultReason), r.headers + Derived(r);
            ParseHead(l, mode, Serialize(r, defaultReason)) ==
              if Over(l.startLine, |start|) then BadHead(StartLineTooLong)
              else if mode == RequestOnly then BadHead(Protocol)
              else if Over(l.headerCount, |hs|) then BadHead(HeaderCountExceeded)
              else Head(start, hs, Payload(r))
  {
    var start, hs := StartLine(r, defaultReason), r.headers + Derived(r);
    StartIsClean(r, defaultReason);
    SomeHeader(r);
    hide StartLine, Derived, Payload, Lines, HeaderLines, ParseHead, Acceptable, Over;
    HeadOutcome(l, mode, start, hs, Payload(r));
  }

  lemma HeadOutcome(l: Limits, mode: Mode, start: string, hs: seq<Header>, payload: string)
    requires "HTTP/" <= start && '\r' !in start && |hs| > 0 && Acceptable(l, hs)
    ensures ParseHead(l, mode, Lines([start] + HeaderLines(hs)) + (CRLF + payload)) ==
              if Over(l.startLine, |start|) then BadHead(StartLineTooLong)
              else if mode == RequestOnly then BadHead(Protocol)
              else if Over(l.headerCount, |hs|) then BadHead(HeaderCountExceeded)
              else Head(start, hs, payload)
  {
    assert Unexpected(mode, start) == (mode == RequestOnly);
    hide *;
    CutAtBlankLine(l, start, hs, payload);
    StartLineDecides(l, mode, start, Joined(HeaderLines(hs)), payload);
    CountLimitIsExact(l, hs, 0, []);
    assert [] + hs == hs;
  }

  lemma CutAtBlankLine(l: Limits, start: string, hs: seq<Header>, payload: string)
    requires "HTTP/" <= start && '\r' !in start && |hs| > 0 && Acceptable(l, hs)
    ensures var head := start + (CRLF + Joined(HeaderLines(hs)));
            && Lines([start] + HeaderLines(hs)) + (CRLF + payload) == head + (BLANK_LINE + payload)
            && IndexOf(head + (BLANK_LINE + payload), BLANK_LINE) == |head|
  {
    CleanHeaderLines(l, hs);
    LinesClean(start, HeaderLines(hs));
    hide *;
    FirstBlankLine([start] + HeaderLines(hs), payload);
    LinesAsHead(start, HeaderLines(hs), payload);
  }

  // ---------- trailers ----------

  lemma TrailerLine(l: Limits, h: Header, rest: string, count: nat, found: seq<Header>, chunks: seq<string>)
    requires CleanHeader(h) && !Exceeds(l.headerLine, |HeaderLine(h)|)
    ensures WalkTrailers(l, HeaderLine(h) + (CRLF + rest), count, found, chunks) ==
              if Over(l.headerCount, count + 1) then BadWalk(HeaderCountExceeded)
              else WalkTrailers(l, rest, count + 1, found + [h], chunks)
  {
    hide *;
    var line := HeaderLine(h);
    HeaderLineRoundTrip(l, h);
    OverFacts(l.headerCount, count + 1, count + 1);
    TakeLine(line, rest);
    TrailersUnfold(l, line + (CRLF + rest), count, found, chunks, |line|);
  }

  lemma TrailersEnd(l: Limits, rest: string, count: nat, found: seq<Header>, chunks: seq<string>)
    ensures WalkTrailers(l, CRLF + rest, count, found, chunks) == Walked(chunks, found, count, rest)
  {
    TakeLine("", rest);
    assert "" + (CRLF + rest) == CRLF + rest && (CRLF + rest)[2..] == rest;
    TrailersUnfold(l, CRLF + rest, count, found, chunks, 0);
    hide *;
  }

  lemma LinesUnfold(ls: seq<string>, rest: string)
    requires ls != []
    ensures Lines(ls) + rest == ls[0] + (CRLF + (Lines(ls[1..]) + rest))
  {
    Assoc(ls[0] + CRLF, Lines(ls[1..]), rest);
    Assoc(ls[0], CRLF, Lines(ls[1..]) + rest);
    hide *;
  }

  /** Trailer fields come back in order, or are refused exactly when there are too many. */
  lemma {:induction false} TrailersComeBack(
    l: Limits, hs: seq<Header>, rest: string, count: nat, found: seq<Header>, chunks: seq<string>)
    requires Acceptable(l, hs)
    ensures WalkTrailers(l, Lines(HeaderLines(hs)) + (CRLF + rest), count, found, chunks) ==
              if hs != [] && Over(l.headerCount, count + |hs|) then BadWalk(HeaderCountExceeded)
              else Walked(chunks, found + hs, count + |hs|, rest)
    decreases |hs|
  {
    if hs == [] {
      NoTrailers(l, hs, rest, count, found, chunks);
    } else {
      hide *;
      AcceptableTail(l, hs);
      HeaderLinesUnfold(hs);
      LinesUnfold(HeaderLines(hs), CRLF + rest);
      OverFacts(l.headerCount, count + 1, count + |hs|);
      TrailerLine(l, hs[0], Lines(HeaderLines(hs[1..])) + (CRLF + rest), count, found, chunks);
      TrailersComeBack(l, hs[1..], rest, count + 1, found + [hs[0]], chunks);
      FieldsJoin(found, hs);
    }
  }

  lemma FieldsJoin(found: seq<Header>, hs: seq<Header>)
    requires hs != []
    ensures (found + [hs[0]]) + hs[1..] == found + hs
    ensures hs[1..] == [] ==> |hs| == 1
  {}

  lemma NoTrailers(l: Limits, hs: seq<Header>, rest: string, count: nat, found: seq<Header>, chunks: seq<string>)
    requires hs == []
    ensures WalkTrailers(l, Lines(HeaderLines(hs)) + (CRLF + rest), count, found, chunks)
         == Walked(chunks, found + hs, count + |hs|, rest)
  {
    assert HeaderLines(hs) == [] && Lines([]) == "" && found + hs == found;
    hide *;
    assert "" + (CRLF + rest) == CRLF + rest;
    TrailersEnd(l, rest, count, found, chunks);
  }

  // ---------- chunk sizes ----------

  lemma DigitIgnoresCase(a: char, b: char)
    requires SameLetter(a, b) && DigitValue(b) < 16
    ensures DigitValue(a) == DigitValue(b)
  {}

  lemma {:induction false} NumberIgnoresCase(a: string, b: string)
    requires SameIgnoringCase(a, b) && AllDigits(b, 16)
    ensures AllDigits(a, 16) && Number(a, 16) == Number(b, 16)
  {
    if a != "" {
      var i := |a| - 1;
      DigitIgnoresCase(a[i], b[i]);
      NumberIgnoresCase(a[..i], b[..i]);
      forall k | 0 <= k < |a| ensures DigitValue(a[k]) < 16 {
        if k < i { assert a[..i][k] == a[k]; }
      }
    }
  }

  /** A size is read in either case, and whatever follows a semicolon is ignored. */
  lemma SizesAreReadFreely(l: Limits, n: nat, hex: string, extension: string)
    requires n < TWO_TO_64 && SameIgnoringCase(hex, Print(n, 16)) && !Over(l.headerLine, |hex + extension|)
    requires extension == "" || extension[0] == ';'
    ensures ChunkSize(l, hex + extension).0 == Some(n)
  {
    HexFacts(n, hex);
    hide *;
    if extension == "" {
      assert hex + extension == hex;
    } else {
      CutExtension(hex, extension);
    }
    SizeBeforeExtension(l, hex + extension, hex);
  }

  lemma HexFacts(n: nat, hex: string)
    requires n < TWO_TO_64 && SameIgnoringCase(hex, Print(n, 16))
    ensures hex != "" && Trim(hex, IsSpace) == hex && Stoull16(hex) == Some(n) && ';' !in hex && IndexOf(hex, ";") < 0
  {
    PrintIsDigits(n, 16);
    NumberOfPrint(n, 16);
    NumberIgnoresCase(hex, Print(n, 16));
    HexIsPlain(hex);
    HexIsRead(hex);
    Absent(hex, ";");
    hide Print, Number, IndexOf, Stoull16, Trim;
  }

  lemma CutExtension(hex: string, extension: string)
    requires ';' !in hex && extension != "" && extension[0] == ';'
    ensures IndexOf(hex + extension, ";") == |hex| && (hex + extension)[..|hex|] == hex
  {
    LineEnd(hex, ";", extension[1..]);
    hide IndexOf;
    assert hex + ";" + extension[1..] == hex + extension;
  }

  lemma HexIsRead(hex: string)
    requires hex != "" && AllDigits(hex, 16) && Number(hex, 16) < TWO_TO_64
    ensures Trim(hex, IsSpace) == hex && Stoull16(hex) == Some(Number(hex, 16))
  {
    HexIsPlain(hex);
    TrimTight(hex, IsSpace);
    StoullOfHex(hex);
    hide Trim, Stoull16, Number;
  }

  lemma SizeBeforeExtension(l: Limits, line: string, hex: string)
    requires !Over(l.headerLine, |line|) && hex != "" && Trim(hex, IsSpace) == hex
    requires var semi := IndexOf(line, ";"); hex == if semi < 0 then line else line[..semi]
    ensures ChunkSize(l, line).0 == Stoull16(hex)
  {
    hide IndexOf, Trim, Stoull16;
  }

  // ---------- a stream with trailers ----------

  lemma {:induction false} WalkData(l: Limits, writes: seq<string>, tail: string, count: nat, chunks: seq<string>)
    requires forall i :: 0 <= i < |writes| ==> Sendable(l, writes[i])
    ensures WalkChunks(l, StreamBytes(writes) + tail, count, chunks) ==
        WalkChunks(l, tail, count, chunks + NonEmpty(writes))
    decreases |writes|
  {
    if writes == [] {
      assert StreamBytes(writes) + tail == tail && chunks + [] == chunks;
    } else {
      hide *;
      DataUnfold(writes, tail);
      assert forall i :: 0 <= i < |writes[1..]| ==> writes[1..][i] == writes[i + 1];
      if writes[0] == "" {
        WalkData(l, writes[1..], tail, count, chunks);
      } else {
        WalkOneChunk(l, writes[0], StreamBytes(writes[1..]) + tail, count, chunks);
        WalkData(l, writes[1..], tail, count, chunks + [writes[0]]);
        assert chunks + ([writes[0]] + NonEmpty(writes[1..])) == (chunks + [writes[0]]) + NonEmpty(writes[1..]);
      }
    }
  }

  lemma DataUnfold(writes: seq<string>, tail: string)
    requires writes != []
    ensures StreamBytes(writes) + tail ==
              if writes[0] == "" then StreamBytes(writes[1..]) + tail
              else SerializeChunk(writes[0]) + (StreamBytes(writes[1..]) + tail)
    ensures NonEmpty(writes) == if writes[0] == "" then NonEmpty(writes[1..]) else [writes[0]] + NonEmpty(writes[1..])
  {
    StreamBytesUnfold(writes);
    hide StreamBytes, SerializeChunk;
    Assoc(SerializeChunk(writes[0]), StreamBytes(writes[1..]), tail);
    assert "" + StreamBytes(writes[1..]) == StreamBytes(writes[1..]);
  }

  lemma LastChunk(l: Limits, hex: string, extension: string, tail: string, count: nat, chunks: seq<string>)
    requires SameIgnoringCase(hex, Print(0, 16)) && !Over(l.headerLine, |hex + extension|)
    requires (extension == "" || extension[0] == ';') && '\r' !in extension
    ensures WalkChunks(l, (hex + extension) + (CRLF + tail), count, chunks) == WalkTrailers(l, tail, count, [], chunks)
  {
    var line := hex + extension;
    SizesAreReadFreely(l, 0, hex, extension);
    PrintIsDigits(0, 16);
    NumberIgnoresCase(hex, Print(0, 16));
    HexIsPlain(hex);
    TakeLine(line, tail);
    hide IndexOf, WalkChunks, WalkTrailers, ChunkSize, Print;
    ChunksUnfold(l, line + (CRLF + tail), count, chunks, |line|);
  }

  /** A chunked stream that ends with trailer fields: the data comes back, then the fields. */
  lemma StreamWithTrailers(l: Limits, writes: seq<string>, hs: seq<Header>, rest: string, count: nat)
    requires forall i :: 0 <= i < |writes| ==> Sendable(l, writes[i])
    requires Acceptable(l, hs) && (hs == [] || !Over(l.headerCount, count + |hs|))
    ensures var raw := StreamBytes(writes) + (("0" + "") + (CRLF + (Lines(HeaderLines(hs)) + (CRLF + rest))));
            var w := WalkChunks(l, raw, count, []);
            && w.Walked? && Concat(w.chunks) == Concat(writes) && w.trailers == hs
            && w.count == count + |hs| && w.rest == rest
  {
    var tail := Lines(HeaderLines(hs)) + (CRLF + rest);
    assert Print(0, 16) == "0" && "0" + "" == "0" && SameIgnoringCase("0", "0");
    hide WalkChunks, WalkTrailers, StreamBytes, Lines, HeaderLines, Print, NonEmpty, Concat, Acceptable, Sendable;
    WalkData(l, writes, ("0" + "") + (CRLF + tail), count, []);
    LastChunk(l, "0", "", tail, count, [] + NonEmpty(writes));
    TrailersComeBack(l, hs, rest, count, [], [] + NonEmpty(writes));
    assert [] + hs == hs && [] + NonEmpty(writes) == NonEmpty(writes);
    NonEmptyConcat(writes);
  }

  // ---------- heads that have not arrived ----------

  lemma NotYet(raw: string, pat: string, n: nat, k: nat)
    requires IndexOf(raw, pat) == n && k <= |raw| && k < n + |pat|
    ensures IndexOf(raw[..k], pat) == -1
  {
    hide IndexOf;
    var r := IndexOf(raw[..k], pat);
    if r >= 0 {
      assert raw[r..r + |pat|] == raw[..k][r..r + |pat|];
      Earlier(raw, pat, r);
    }
  }

  lemma {:induction false} Earlier(s: string, pat: string, k: nat)
    requires k + |pat| <= |s| && s[k..k + |pat|] == pat
    ensures 0 <= IndexOf(s, pat) <= k
  {
    if k == 0 {
      assert s[..|pat|] == pat;
    } else if !(pat <= s) {
      assert s[1..][k - 1..k - 1 + |pat|] == s[k..k + |pat|];
      Earlier(s[1..], pat, k - 1);
    }
  }

  /** As long as any part of the blank line is missing, the parser waits for more. */
  lemma PartialHeadsWait(l: Limits, mode: Mode, start: string, hs: seq<Header>, payload: string, k: nat)
    requires "HTTP/" <= start && '\r' !in start && |hs| > 0 && Acceptable(l, hs)
    requires k < |start + (CRLF + Joined(HeaderLines(hs)))| + 4
    ensures var raw := Lines([start] + HeaderLines(hs)) + (CRLF + payload);
            k <= |raw| && ParseHead(l, mode, raw[..k]) == Incomplete
  {
    CutAtBlankLine(l, start, hs, payload);
    var raw := Lines([start] + HeaderLines(hs)) + (CRLF + payload);
    var head := start + (CRLF + Joined(HeaderLines(hs)));
    assert |BLANK_LINE| == 4;
    assert k >= 5 ==> raw[..k][..5] == "HTTP/" by { assert raw[..|start|] == start; }
    NotYet(raw, BLANK_LINE, |head|, k);
    hide IndexOf, Lines, Joined, HeaderLines, Acceptable;
  }

  /** Where only responses are expected, anything else is refused after five characters. */
  lemma GarbageIsRefused(l: Limits, pending: string)
    requires IndexOf(pending, BLANK_LINE) < 0
    ensures ParseHead(l, ResponseOnly, pending) ==
              if |pending| >= 5 && !("HTTP/" <= pending) then BadHead(Protocol) else Incomplete
  {
    hide IndexOf;
  }

  // ---------- lines and numbers that are refused ----------

  ghost predicate AllSpace(s: string) { forall i :: 0 <= i < |s| ==> IsSpace(s[i]) }

  lemma {:induction false} FrontGoes(s: string)
    ensures SkipFront(s, IsSpace) == "" <==> AllSpace(s)
    ensures SkipFront(s, IsSpace) != "" ==> !IsSpace(SkipFront(s, IsSpace)[0])
  {
    if s != "" && IsSpace(s[0]) {
      FrontGoes(s[1..]);
      assert AllSpace(s) <==> AllSpace(s[1..]) by {
        if AllSpace(s[1..]) {
          forall i | 0 <= i < |s| ensures IsSpace(s[i]) { if i > 0 { assert IsSpace(s[1..][i - 1]); } }
        }
      }
    }
  }

  lemma {:induction false} BackLeavesFirst(s: string)
    requires s != "" && !IsSpace(s[0])
    ensures SkipBack(s, IsSpace) != ""
  {
    if |s| > 1 && IsSpace(s[|s| - 1]) { BackLeavesFirst(s[..|s| - 1]); }
  }

  lemma TrimmedToNothing(s: string)
    ensures Trim(s, IsSpace) == "" <==> AllSpace(s)
  {
    FrontGoes(s);
    if SkipFront(s, IsSpace) != "" { BackLeavesFirst(SkipFront(s, IsSpace)); }
    hide SkipFront, AllSpace, IsSpace;
  }

  /** Which lines are fields: those with a name that is not blank in front of their first
      colon; name and value are what is left after trimming. */
  lemma LinesAreFields(l: Limits, name: string, value: string)
    requires ':' !in name
    ensures !Over(l.headerLine, |name|) ==> ParseHeaderLine(l, name) == BadLine(Protocol)
    ensures !Over(l.headerLine, |name + ":" + value|) ==>
      ParseHeaderLine(l, name + ":" + value) ==
        if AllSpace(name) then BadLine(Protocol) else Field(Header(Trim(name, IsSpace), Trim(value, IsSpace)))
  {
    var line := name + ":" + value;
    Absent(name, ":");
    LineEnd(name, ":", value);
    assert line[..|name|] == name && line[|name| + 1..] == value;
    TrimmedToNothing(name);
    hide IndexOf, Trim, AllSpace;
    if name == "" { NothingIsSpace(name); }
  }

  lemma NothingIsSpace(s: string)
    requires s == ""
    ensures AllSpace(s)
  {}

  /** Sizes: a number is read up to the first character that is no digit, a text that
      does not begin with one is refused, and so is a number of more than 64 bits. */
  lemma SizesAreNumbers(digits: string, junk: string)
    requires AllDigits(digits, 16)
    requires junk == "" || (DigitValue(junk[0]) >= 16 && junk[0] !in "xX+-" && !IsSpace(junk[0]))
    ensures Stoull16(digits + junk) ==
              if digits == "" || Number(digits, 16) >= TWO_TO_64 then None else Some(Number(digits, 16))
  {
    var t := digits + junk;
    if digits != "" {
      DigitIsPlain(digits[0]);
      if |digits| > 1 { DigitIsPlain(digits[1]); }
    }
    assert SkipFront(t, IsSpace) == t by { assert t != "" ==> !IsSpace(t[0]); }
    DigitRunIs(digits, junk, 16);
    assert t[..|digits|] == digits;
    hide SkipFront, DigitRun, Number;
  }

  /** What is read behind an optional sign and prefix. */
  ghost predicate ReadsUpTo(text: string, digits: string) {
    && digits != "" && digits <= text && DigitRun(text, 16) == |digits| && Number(digits, 16) < TWO_TO_64
    && !IsSpace(text[0]) && text[0] != '-' && text[0] != '+'
    && !(|text| >= 3 && text[0] == '0' && (text[1] == 'x' || text[1] == 'X'))
  }

  lemma DigitsReadUpTo(digits: string, junk: string)
    requires digits != "" && AllDigits(digits, 16) && Number(digits, 16) < TWO_TO_64
    requires junk == "" || (DigitValue(junk[0]) >= 16 && junk[0] !in "xX")
    ensures ReadsUpTo(digits + junk, digits) && DigitValue((digits + junk)[0]) < 16
  {
    var t := digits + junk;
    DigitIsPlain(digits[0]);
    if |digits| > 1 { DigitIsPlain(digits[1]); }
    DigitRunIs(digits, junk, 16);
    assert t[..|digits|] == digits && t[0] == digits[0];
    assert |t| > 1 ==> t[1] == if |digits| > 1 then digits[1] else junk[0];
    hide DigitRun, Number;
  }

  lemma MinusWraps(text: string, digits: string)
    requires ReadsUpTo(text, digits)
    ensures Stoull16("-" + text) == Some(if Number(digits, 16) == 0 then 0 else TWO_TO_64 - Number(digits, 16))
  {
    FrontStays("-" + text);
    assert ("-" + text)[1..] == text && text[..|digits|] == digits;
    hide SkipFront, DigitRun, Number;
  }

  lemma PlusIsSkipped(text: string, digits: string)
    requires ReadsUpTo(text, digits)
    ensures Stoull16("+" + text) == Some(Number(digits, 16))
  {
    FrontStays("+" + text);
    assert ("+" + text)[1..] == text && text[..|digits|] == digits;
    hide SkipFront, DigitRun, Number;
  }

  lemma PrefixIsSkipped(text: string, digits: string)
    requires ReadsUpTo(text, digits) && DigitValue(text[0]) < 16
    ensures Stoull16("0x" + text) == Some(Number(digits, 16))
  {
    var s := "0x" + text;
    FrontStays(s);
    assert s[2..] == text && text[..|digits|] == digits && s[0] == '0' && s[1] == 'x' && s[2] == text[0];
    hide SkipFront, DigitRun, Number;
  }

  /** A minus sign wraps the number around, a plus sign and a `0x` in front of digits are
      skipped. */
  lemma SignsAndPrefixes(digits: string, junk: string)
    requires digits != "" && AllDigits(digits, 16) && Number(digits, 16) < TWO_TO_64
    requires junk == "" || (DigitValue(junk[0]) >= 16 && junk[0] !in "xX")
    ensures Stoull16("-" + (digits + junk)) ==
              Some(if Number(digits, 16) == 0 then 0 else TWO_TO_64 - Number(digits, 16))
    ensures Stoull16("+" + (digits + junk)) == Some(Number(digits, 16))
    ensures Stoull16("0x" + (digits + junk)) == Some(Number(digits, 16))
  {
    DigitsReadUpTo(digits, junk);
    hide *;
    MinusWraps(digits + junk, digits);
    PlusIsSkipped(digits + junk, digits);
    PrefixIsSkipped(digits + junk, digits);
  }

  lemma FrontStays(s: string)
    requires s != "" && !IsSpace(s[0])
    ensures SkipFront(s, IsSpace) == s
  {}
}
