/**
  Multipart form bodies: the builder of the HTTP client and the parser of the
  web framework (section 5.1.1 of RFC 2046).
 */
module Multipart {
  import opened Wrappers
  import opened Text
  import opened TextLines

  datatype Part = Part(name: string, filename: Option<string>, contentType: Option<string>, value: string)

  datatype Field = Field(name: string, filename: string, contentType: string, data: string)

  predicate IsBlank(c: char) { c == ' ' || c == '\t' }

  predicate IsBreak(c: char) { c == '\r' || c == '\n' }

  function Delimiter(boundary: string): string { "--" + boundary }

  // ---------- the builder ----------

  predicate NeedsEscape(c: char) { c == '"' || c == '\\' }

  function Quote(s: string): string {
    if s == "" then "" else (if NeedsEscape(s[0]) then ['\\', s[0]] else [s[0]]) + Quote(s[1..])
  }

  lemma {:induction false} QuoteAppend(s: string, c: char)
    ensures Quote(s + [c]) == Quote(s) + if NeedsEscape(c) then ['\\', c] else [c]
  {
    if s == "" {
      assert ([c])[1..] == "";
      assert s + [c] == [c];
    } else {
      QuoteAppend(s[1..], c);
      assert (s + [c])[1..] == s[1..] + [c];
    }
  }

  method QuoteMultipartToken(value: string) returns (out: string)
    ensures out == Quote(value)
  {
    out := "";
    var i := 0;
    while i < |value|
      invariant 0 <= i <= |value| && out == Quote(value[..i])
    {
      QuoteAppend(value[..i], value[i]);
      assert value[..i] + [value[i]] == value[..i + 1];
      out := out + if NeedsEscape(value[i]) then ['\\', value[i]] else [value[i]];
      i := i + 1;
    }
    assert value[..i] == value;
  }

  function DispositionPrefix(): string { "Content-Disposition: form-data" }

  /** `; name="` behind the prefix. */
  function DispositionStart(): string { DispositionPrefix() + (";" + (" " + ("name" + ("=" + "\"")))) }

  function FilenameStart(): string { "; " + ("filename" + ("=" + "\"")) }

  function TypeMarker(): string { "Content-Type:" }

  function FilenameText(p: Part): string {
    if p.filename.None? then "" else FilenameStart() + (Quote(p.filename.value) + "\"")
  }

  function Disposition(p: Part): string {
    DispositionStart() + (Quote(p.name) + ("\"" + FilenameText(p)))
  }

  function TypeLine(contentType: string): string { TypeMarker() + (" " + contentType) }

  function PartLines(p: Part): (ls: seq<string>)
    ensures |ls| > 0
  {
    [Disposition(p)] + if p.contentType.None? then [] else [TypeLine(p.contentType.value)]
  }

  /** What stands between a delimiter line and the next delimiter. */
  function PartText(p: Part): string {
    Lines(PartLines(p)) + (CRLF + (p.value + CRLF))
  }

  function Body(parts: seq<Part>, boundary: string): string {
    if parts == [] then Delimiter(boundary) + ("--" + CRLF)
    else (Delimiter(boundary) + CRLF) + (PartText(parts[0]) + Body(parts[1..], boundary))
  }

  /** The printed parts, without the closing delimiter. */
  function Printed(parts: seq<Part>, boundary: string): string {
    if parts == [] then "" else (Delimiter(boundary) + CRLF) + (PartText(parts[0]) + Printed(parts[1..], boundary))
  }

  lemma {:induction false} PrintedAppend(parts: seq<Part>, p: Part, boundary: string)
    ensures Printed(parts + [p], boundary) == Printed(parts, boundary) + ((Delimiter(boundary) + CRLF) + PartText(p))
  {
    hide Delimiter, PartText;
    if parts == [] {
      assert [p][1..] == [] && parts + [p] == [p];
    } else {
      PrintedAppend(parts[1..], p, boundary);
      assert (parts + [p])[1..] == parts[1..] + [p];
    }
  }

  lemma {:induction false} PrintedIsBody(parts: seq<Part>, boundary: string)
    ensures Printed(parts, boundary) + (Delimiter(boundary) + ("--" + CRLF)) == Body(parts, boundary)
  {
    hide Delimiter, PartText;
    if parts != [] {
      PrintedIsBody(parts[1..], boundary);
    }
  }

  method BuildPart(body: string, p: Part, boundary: string) returns (out: string)
    ensures out == body + ((Delimiter(boundary) + CRLF) + PartText(p))
  {
    var name := QuoteMultipartToken(p.name);
    hide Quote, DispositionStart, FilenameStart, TypeMarker;
    var head := DispositionStart() + name + "\"";
    if p.filename.Some? {
      var filename := QuoteMultipartToken(p.filename.value);
      head := head + (FilenameStart() + (filename + "\""));
    }
    assert head == Disposition(p);
    var text := head + CRLF;
    if p.contentType.Some? {
      text := text + (TypeLine(p.contentType.value) + CRLF);
    }
    PartTextIs(p);
    hide *;
    text := text + (CRLF + (p.value + CRLF));
    out := body + ((Delimiter(boundary) + CRLF) + text);
  }

  lemma PartTextIs(p: Part)
    ensures p.contentType.None? ==> PartText(p) == (Disposition(p) + CRLF) + (CRLF + (p.value + CRLF))
    ensures p.contentType.Some? ==>
      PartText(p) == ((Disposition(p) + CRLF) + (TypeLine(p.contentType.value) + CRLF)) + (CRLF + (p.value + CRLF))
  {
    hide Disposition, TypeLine;
    var ls := PartLines(p);
    if p.contentType.None? {
      assert ls[1..] == [] && Lines(ls) == (ls[0] + CRLF) + "";
    } else {
      assert ls[1..] == [ls[1]] && ls[1..][1..] == [];
      assert Lines(ls[1..]) == (ls[1] + CRLF) + "";
    }
  }

  method BuildMultipartBody(parts: seq<Part>, boundary: string) returns (body: string)
    ensures body == Body(parts, boundary)
  {
    body := "";
    assert Printed([], boundary) == "" && parts[..0] == [];
    hide *;
    var i := 0;
    while i < |parts|
      invariant 0 <= i <= |parts| && body == Printed(parts[..i], boundary)
    {
      PrintedAppend(parts[..i], parts[i], boundary);
      assert parts[..i] + [parts[i]] == parts[..i + 1];
      body := BuildPart(body, parts[i], boundary);
      i := i + 1;
    }
    assert parts[..i] == parts;
    PrintedIsBody(parts, boundary);
    body := body + (Delimiter(boundary) + ("--" + CRLF));
  }

  // ---------- the parameters of a disposition line ----------

  /** Separators and blanks in front of a parameter. */
  function SkipSeparators(s: string): (r: string)
    ensures |r| <= |s|
    decreases |s|
  {
    if s != "" && s[0] == ';' then
      TrimShrinks(s[1..], IsBlank); SkipSeparators(Trim(s[1..], IsBlank))
    else s
  }

  lemma TrimShrinks(s: string, drop: char -> bool)
    ensures |Trim(s, drop)| <= |s|
  {}

  function FirstParameter(rest: string): (r: string)
    ensures |r| <= |rest|
  {
    TrimShrinks(rest, IsBlank);
    SkipSeparators(Trim(rest, IsBlank))
  }

  /** The value at the front of `text` and what follows it; an unterminated quote gives an empty value. */
  function TakeValue(text: string): (r: (string, string))
    ensures |r.1| <= |text|
  {
    if text != "" && text[0] == '"' then
      var close := IndexOf(text[1..], "\"");
      if close < 0 then ("", text[1..]) else (text[1..][..close], text[1..][close + 1..])
    else
      var semi := IndexOf(text, ";");
      if semi < 0 then (text, "") else (text[..semi], text[semi + 1..])
  }

  datatype ParamStep = NoMore | Junk(rest: string) | Pair(key: string, value: string, rest: string)

  function NextParam(text: string): (r: ParamStep)
    ensures !r.NoMore? ==> |r.rest| < |text|
  {
    var p := FirstParameter(text);
    var eq := IndexOf(p, "=");
    if p == "" then NoMore
    else if eq < 0 then
      var semi := IndexOf(p, ";");
      if semi < 0 then NoMore else Junk(p[semi + 1..])
    else
      TrimShrinks(p[eq + 1..], IsBlank);
      var (value, rest) := TakeValue(Trim(p[eq + 1..], IsBlank));
      Pair(Trim(p[..eq], IsBlank), value, rest)
  }

  function Params(rest: string, found: map<string, string>): map<string, string>
    decreases |rest|
  {
    match NextParam(rest)
    case NoMore => found
    case Junk(tail) => Params(tail, found)
    case Pair(key, value, tail) => Params(tail, found[key := value])
  }

  lemma ParamsUnfold(rest: string, found: map<string, string>)
    ensures Params(rest, found) ==
              match NextParam(rest)
              case NoMore => found
              case Junk(tail) => Params(tail, found)
              case Pair(key, value, tail) => Params(tail, found[key := value])
  {
    hide NextParam;
  }

  lemma ParamsDone(found: map<string, string>)
    ensures Params("", found) == found
  {
    assert FirstParameter("") == "";
    assert NextParam("") == NoMore;
  }

  function DispositionParams(line: string): map<string, string> {
    var pos := IndexOf(line, ";");
    if pos < 0 then map[] else Params(line[pos + 1..], map[])
  }

  lemma SkipFrontUnfold(s: string, drop: char -> bool)
    ensures SkipFront(s, drop) == if s != "" && drop(s[0]) then SkipFront(s[1..], drop) else s
  {}

  lemma SkipBackUnfold(s: string, drop: char -> bool)
    ensures SkipBack(s, drop) == if s != "" && drop(s[|s| - 1]) then SkipBack(s[..|s| - 1], drop) else s
  {}

  method TrimSpace(s: string) returns (r: string)
    ensures r == Trim(s, IsBlank)
  {
    r := s;
    while r != "" && (r[0] == ' ' || r[0] == '\t')
      invariant SkipFront(r, IsBlank) == SkipFront(s, IsBlank)
      decreases |r|
    {
      r := r[1..];
    }
    r := TrimEnd(r, IsBlank);
  }

  method TrimEnd(s: string, drop: char -> bool) returns (r: string)
    ensures r == SkipBack(s, drop)
  {
    r := s;
    while r != "" && drop(r[|r| - 1])
      invariant SkipBack(r, drop) == SkipBack(s, drop)
      decreases |r|
    {
      r := r[..|r| - 1];
    }
  }

  lemma SkipSeparatorsUnfold(s: string)
    ensures SkipSeparators(s) == if s != "" && s[0] == ';' then SkipSeparators(Trim(s[1..], IsBlank)) else s
  {}

  method NextParameter(rest: string) returns (r: string)
    ensures r == FirstParameter(rest)
  {
    hide SkipSeparators, Trim;
    r := TrimSpace(rest);
    while r != "" && r[0] == ';'
      invariant SkipSeparators(r) == SkipSeparators(Trim(rest, IsBlank))
      decreases |r|
    {
      SkipSeparatorsUnfold(r);
      TrimShrinks(r[1..], IsBlank);
      r := TrimSpace(r[1..]);
    }
    SkipSeparatorsUnfold(r);
  }

  method ReadValue(text: string) returns (value: string, rest: string)
    ensures (value, rest) == TakeValue(text)
  {
    rest := text;
    value := "";
    if rest != "" && rest[0] == '"' {
      rest := rest[1..];
      var pos := IndexOf(rest, "\"");
      if pos >= 0 {
        value, rest := rest[..pos], rest[pos + 1..];
      }
    } else {
      var pos := IndexOf(rest, ";");
      if pos < 0 {
        value, rest := rest, "";
      } else {
        value, rest := rest[..pos], rest[pos + 1..];
      }
    }
  }

  method ReadParam(text: string) returns (r: ParamStep)
    ensures r == NextParam(text)
  {
    hide FirstParameter, Trim, TakeValue, IndexOf;
    var p := NextParameter(text);
    if p == "" {
      return NoMore;
    }
    var pos := IndexOf(p, "=");
    if pos < 0 {
      pos := IndexOf(p, ";");
      if pos < 0 {
        return NoMore;
      }
      return Junk(p[pos + 1..]);
    }
    var key := TrimSpace(p[..pos]);
    var after := TrimSpace(p[pos + 1..]);
    var value, rest := ReadValue(after);
    return Pair(key, value, rest);
  }

  method ParseContentDisposition(header: string) returns (params: map<string, string>)
    ensures params == DispositionParams(header)
  {
    hide Params, NextParam, IndexOf;
    params := map[];
    var pos := IndexOf(header, ";");
    if pos < 0 {
      return;
    }
    var rest := header[pos + 1..];
    assert Params(rest, params) == DispositionParams(header);
    hide *;
    while rest != ""
      invariant Params(rest, params) == DispositionParams(header)
      decreases |rest|
    {
      ParamsUnfold(rest, params);
      var step := ReadParam(rest);
      match step {
        case NoMore => return;
        case Junk(tail) => rest := tail;
        case Pair(key, value, tail) => params, rest := params[key := value], tail;
      }
    }
    ParamsDone(params);
  }

  // ---------- one part ----------

  /** The line of `headers` that starts at `at`, up to its newline. */
  function LineAt(headers: string, at: nat): string
    requires at <= |headers|
  {
    var end := IndexOf(headers[at..], "\n");
    if end < 0 then headers[at..] else headers[at..][..end]
  }

  function Lookup(params: map<string, string>, key: string): string {
    if key in params then params[key] else ""
  }

  function TypeOf(headers: string): string {
    var at := IndexOf(headers, TypeMarker());
    if at < 0 then ""
    else
      var line := LineAt(headers, at);
      var colon := IndexOf(line, ":");
      if colon < 0 then "" else Trim(line[colon + 1..], IsBlank)
  }

  function ParamsOf(headers: string): map<string, string> {
    var at := IndexOf(headers, "Content-Disposition:");
    if at < 0 then map[] else DispositionParams(LineAt(headers, at))
  }

  function FieldOf(headers: string, data: string): Field {
    var params := ParamsOf(headers);
    Field(Lookup(params, "name"), Lookup(params, "filename"), TypeOf(headers), data)
  }

  /** Where the headers of a part end, and how long the blank line is. */
  function HeaderEnd(part: string): Option<nat> {
    var at := IndexOf(part, BLANK_LINE);
    if at >= 0 then Some(at)
    else
      var bare := IndexOf(part, "\n\n");
      if bare < 0 then None else Some(bare)
  }

  function DataOf(part: string, at: nat): string
    requires at < |part|
  {
    var data := part[at..];
    var skip := if part[at] == '\r' then 4 else 2;
    SkipBack(if |data| >= skip then data[skip..] else data, IsBreak)
  }

  lemma HeaderEndInside(part: string)
    ensures HeaderEnd(part).Some? ==> HeaderEnd(part).value < |part|
  {}

  function ParsePart(part: string): Option<Field> {
    HeaderEndInside(part);
    match HeaderEnd(part)
    case None => None
    case Some(at) => Some(FieldOf(part[..at], DataOf(part, at)))
  }

  method ReadParams(headers: string) returns (params: map<string, string>)
    ensures params == ParamsOf(headers)
  {
    params := map[];
    hide IndexOf, DispositionParams, LineAt;
    var at := IndexOf(headers, "Content-Disposition:");
    if at >= 0 {
      params := ParseContentDisposition(LineAt(headers, at));
    }
  }

  method ReadType(headers: string) returns (contentType: string)
    ensures contentType == TypeOf(headers)
  {
    contentType := "";
    hide IndexOf, Trim, LineAt, TypeMarker;
    var at := IndexOf(headers, TypeMarker());
    if at >= 0 {
      var line := LineAt(headers, at);
      var colon := IndexOf(line, ":");
      if colon >= 0 {
        contentType := TrimSpace(line[colon + 1..]);
      }
    }
  }

  method ParseField(headers: string, data: string) returns (field: Field)
    ensures field == FieldOf(headers, data)
  {
    hide ParamsOf, TypeOf;
    field := Field("", "", "", "");
    var params := ReadParams(headers);
    if "name" in params {
      field := field.(name := params["name"]);
    }
    if "filename" in params {
      field := field.(filename := params["filename"]);
    }
    var contentType := ReadType(headers);
    field := field.(contentType := contentType, data := data);
  }

  // ---------- the whole body ----------

  type Form = map<string, seq<Field>>

  /** `Looping` stands for the iteration that repeats itself forever: a part without a blank line. */
  datatype Parsed = Parsed(form: Form) | Looping

  /** Unnamed fields are dropped. */
  function Add(form: Form, f: Field): Form {
    if f.name == "" then form
    else form[f.name := (if f.name in form then form[f.name] else []) + [f]]
  }

  /** Where the part at the front of `after` ends; the second search is the source's. */
  function PartEnd(after: string, boundary: string): (r: int)
    ensures -1 <= r <= |after|
  {
    var end := IndexOf(after, Delimiter(boundary));
    if end >= 0 then end else IndexOf(after, Delimiter(boundary) + "--")
  }

  /** The next part and the text behind it, which starts with a delimiter again. */
  function NextPart(rest: string, boundary: string): (r: Option<(string, string)>)
    ensures r.Some? ==> |r.value.1| < |rest|
  {
    var start := IndexOf(rest, Delimiter(boundary));
    if start < 0 then None
    else
      var after := SkipFront(rest[start + |Delimiter(boundary)|..], IsBreak);
      var end := PartEnd(after, boundary);
      if after == "" || end < 0 then None else Some((after[..end], after[end..]))
  }

  function Parse(rest: string, boundary: string, form: Form): Parsed
    decreases |rest|
  {
    match NextPart(rest, boundary)
    case None => Parsed(form)
    case Some(next) =>
      match ParsePart(next.0)
      case None => Looping
      case Some(f) => Parse(next.1, boundary, Add(form, f))
  }

  lemma ParseUnfold(rest: string, boundary: string, form: Form)
    ensures Parse(rest, boundary, form) ==
              match NextPart(rest, boundary)
              case None => Parsed(form)
              case Some(next) =>
                match ParsePart(next.0)
                case None => Looping
                case Some(f) => Parse(next.1, boundary, Add(form, f))
  {
    hide NextPart, ParsePart, Add;
  }

  /** Skips the line breaks from `at` on. */
  method SkipBreaks(body: string, at: nat) returns (start: nat)
    requires at <= |body|
    ensures at <= start <= |body| && body[start..] == SkipFront(body[at..], IsBreak)
  {
    start := at;
    while start < |body| && (body[start] == '\r' || body[start] == '\n')
      invariant at <= start <= |body| && SkipFront(body[start..], IsBreak) == SkipFront(body[at..], IsBreak)
    {
      assert body[start..][1..] == body[start + 1..];
      start := start + 1;
    }
  }

  /** Cuts one part into headers and data; `None` when it has no blank line. */
  method ReadPart(part: string) returns (field: Option<Field>)
    ensures field == ParsePart(part)
  {
    HeaderEndInside(part);
    hide FieldOf, IndexOf, SkipBack;
    var end := IndexOf(part, BLANK_LINE);
    if end < 0 {
      end := IndexOf(part, "\n\n");
      if end < 0 {
        return None;
      }
    }
    var headers, data := part[..end], part[end..];
    var skip := if part[end] == '\r' then 4 else 2;
    if |data| >= skip {
      data := data[skip..];
    }
    data := TrimEnd(data, IsBreak);
    var f := ParseField(headers, data);
    return Some(f);
  }

  /** Finds the next part from `pos` on: where it starts and how long it is, if there is one. */
  method FindPart(body: string, boundary: string, pos: nat) returns (found: bool, start: nat, length: nat)
    requires pos < |body|
    ensures found ==> pos < start && start + length <= |body|
    ensures NextPart(body[pos..], boundary) ==
              if found then Some((body[start..][..length], body[start..][length..])) else None
  {
    found, start, length := false, 0, 0;
    hide *;
    var rest := body[pos..];
    DelimiterLength(boundary);
    var at := IndexOf(rest, Delimiter(boundary));
    if at < 0 {
      NoPart(rest, boundary);
      return;
    }
    var skip := at + |Delimiter(boundary)|;
    start := SkipBreaks(body, pos + skip);
    DropDrop(body, pos, skip);
    var end := FindPartEnd(body[start..], boundary);
    NextPartIs(rest, boundary, skip, body[start..], end);
    if start < |body| && end >= 0 {
      found, length := true, end;
    }
  }

  lemma DelimiterLength(boundary: string)
    ensures |Delimiter(boundary)| == 2 + |boundary|
  {}

  lemma NoPart(rest: string, boundary: string)
    requires IndexOf(rest, Delimiter(boundary)) < 0
    ensures NextPart(rest, boundary) == None
  {
    hide IndexOf, Delimiter;
  }

  lemma NextPartIs(rest: string, boundary: string, skip: nat, after: string, end: int)
    requires IndexOf(rest, Delimiter(boundary)) >= 0
    requires skip == IndexOf(rest, Delimiter(boundary)) + |Delimiter(boundary)|
    requires after == SkipFront(rest[skip..], IsBreak) && end == PartEnd(after, boundary)
    ensures NextPart(rest, boundary) ==
              if after == "" || end < 0 then None else Some((after[..end], after[end..]))
  {
    hide IndexOf, Delimiter, SkipFront, PartEnd;
  }

  method ParseMultipart(body: string, boundary: string) returns (result: Parsed)
    ensures result == Parse(body, boundary, map[])
  {
    var form: Form := map[];
    var pos := 0;
    hide Parse, ParsePart, Add, NextPart;
    assert body[0..] == body;
    while pos < |body|
      invariant 0 <= pos <= |body|
      invariant Parse(body[pos..], boundary, form) == Parse(body, boundary, map[])
      decreases |body| - pos
    {
      ParseUnfold(body[pos..], boundary, form);
      var found, start, length := FindPart(body, boundary, pos);
      if !found {
        return Parsed(form);
      }
      var field := ReadPart(body[start..][..length]);
      if field.None? {
        return Looping;
      }
      form := Add(form, field.value);
      DropDrop(body, start, length);
      pos := start + length;
    }
    assert body[pos..] == "";
    AfterTheEnd(boundary, form);
    result := Parsed(form);
  }

  method FindPartEnd(after: string, boundary: string) returns (end: int)
    ensures end == PartEnd(after, boundary)
  {
    end := IndexOf(after, Delimiter(boundary));
    if end < 0 {
      end := IndexOf(after, Delimiter(boundary) + "--");
    }
  }

  lemma AfterTheEnd(boundary: string, form: Form)
    ensures Parse("", boundary, form) == Parsed(form)
  {
    assert !(Delimiter(boundary) <= "");
  }
}
