/** The multipart parser undoes the multipart builder. */
module MultipartTheorems {
  import opened Wrappers
  import opened Text
  import opened TextLines
  import opened Multipart

  // ---------- occurrences ----------

  predicate Occurs(s: string, pat: string) { IndexOf(s, pat) >= 0 }

  lemma {:induction false} OccursAt(s: string, pat: string, k: nat)
    requires k <= |s| && pat <= s[k..]
    ensures 0 <= IndexOf(s, pat) <= k
  {
    if k > 0 && !(pat <= s) {
      assert s[1..][k - 1..] == s[k..];
      OccursAt(s[1..], pat, k - 1);
    } else {
      assert s[0..] == s;
    }
  }

  lemma FoundIsThere(s: string, pat: string)
    requires Occurs(s, pat)
    ensures pat <= s[IndexOf(s, pat)..]
  {
    var r := IndexOf(s, pat);
    assert s[r..][..|pat|] == s[r..r + |pat|];
  }

  /** An occurrence inside a prefix is one in the whole. */
  lemma OccursInPrefix(s: string, t: string, pat: string)
    requires Occurs(s, pat)
    ensures 0 <= IndexOf(s + t, pat) <= IndexOf(s, pat)
  {
    var k := IndexOf(s, pat);
    FoundIsThere(s, pat);
    hide IndexOf;
    assert (s + t)[k..] == s[k..] + t;
    OccursAt(s + t, pat, k);
  }

  lemma OccursInSuffix(s: string, t: string, pat: string)
    requires Occurs(t, pat)
    ensures Occurs(s + t, pat)
  {
    var k := IndexOf(t, pat);
    FoundIsThere(t, pat);
    hide IndexOf;
    assert (s + t)[|s| + k..] == t[k..];
    OccursAt(s + t, pat, |s| + k);
  }

  /** A pattern without `c` lies on one side of `c`. */
  lemma AcrossMark(a: string, c: char, b: string, pat: string)
    requires pat != "" && c !in pat
    ensures Occurs(a + ([c] + b), pat) <==> Occurs(a, pat) || Occurs(b, pat)
  {
    hide IndexOf;
    var s := a + ([c] + b);
    if Occurs(a, pat) { OccursInPrefix(a, [c] + b, pat); }
    if Occurs(b, pat) { OccursInSuffix([c], b, pat); OccursInSuffix(a, [c] + b, pat); }
    if Occurs(s, pat) {
      OneSide(a, c, b, pat, IndexOf(s, pat));
    }
  }

  lemma NotAcross(s: string, pat: string, k: nat, n: nat)
    requires n < |s| && s[n] !in pat && k + |pat| <= |s| && k <= n < k + |pat|
    ensures s[k..k + |pat|] != pat
  {
    assert s[k..k + |pat|][n - k] == s[n];
  }

  lemma OneSide(a: string, c: char, b: string, pat: string, k: nat)
    requires pat != "" && c !in pat && k + |pat| <= |a| + 1 + |b| && (a + ([c] + b))[k..k + |pat|] == pat
    ensures Occurs(a, pat) || Occurs(b, pat)
  {
    hide IndexOf;
    var s := a + ([c] + b);
    if k + |pat| <= |a| {
      assert a[k..][..|pat|] == s[k..k + |pat|];
      OccursAt(a, pat, k);
    } else if k <= |a| {
      NotAcross(s, pat, k, |a|);
    } else {
      var j := k - |a| - 1;
      assert b[j..][..|pat|] == s[k..k + |pat|];
      OccursAt(b, pat, j);
    }
  }

  /** Text that ends a line and does not hold the delimiter runs up to the next delimiter. */
  lemma NextDelimiter(text: string, rest: string, delim: string)
    requires delim != "" && '\n' !in delim && delim <= rest && !Occurs(text, delim)
    requires text != "" && text[|text| - 1] == '\n'
    ensures IndexOf(text + rest, delim) == |text|
  {
    var s := text + rest;
    forall k | 0 <= k < |text| && k <= |s| ensures !(delim <= s[k..]) {
      NoDelimiterAt(text, rest, delim, k);
    }
    assert s[|text|..] == rest;
    hide IndexOf;
    IndexOfIs(s, delim, |text|);
  }

  lemma NoDelimiterAt(text: string, rest: string, delim: string, k: nat)
    requires delim != "" && '\n' !in delim && !Occurs(text, delim)
    requires k < |text| && text[|text| - 1] == '\n'
    ensures !(delim <= (text + rest)[k..])
  {
    hide IndexOf;
    var s := text + rest;
    if k + |delim| <= |text| {
      if delim <= s[k..] {
        assert text[k..][..|delim|] == s[k..][..|delim|];
        OccursAt(text, delim, k);
      }
    } else {
      assert s[|text| - 1] == '\n';
      NotAt(s, delim, k, |text| - 1 - k);
    }
  }

  // ---------- quoted tokens ----------

  predicate Plain(s: string) { '"' !in s && '\\' !in s }

  lemma {:induction false} QuoteFacts(s: string)
    ensures |Quote(s)| >= |s| && (|Quote(s)| == |s| ==> Plain(s))
    ensures Plain(s) ==> Quote(s) == s
    ensures '"' !in s ==> '"' !in Quote(s)
  {
    if s != "" {
      QuoteFacts(s[1..]);
      assert s == [s[0]] + s[1..];
    }
  }

  lemma QuotedValue(value: string, tail: string)
    requires '"' !in value
    ensures TakeValue("\"" + (value + ("\"" + tail))) == (value, tail)
  {
    var text := "\"" + (value + ("\"" + tail));
    var inner := value + ("\"" + tail);
    LineEnd(value, "\"", tail);
    Assoc(value, "\"", tail);
    hide IndexOf;
    assert text[1..] == inner;
    assert inner[..|value|] == value && inner[|value| + 1..] == tail;
  }

  /** The builder escapes quotes and backslashes, the parser does not undo it: a
      token survives exactly when it holds neither. */
  lemma TokenSurvives(token: string, tail: string)
    ensures TakeValue("\"" + (Quote(token) + ("\"" + tail))).0 == token <==> Plain(token)
  {
    QuoteFacts(token);
    if '"' !in token {
      QuotedValue(Quote(token), tail);
    } else {
      ValueHasNoQuote("\"" + (Quote(token) + ("\"" + tail)));
    }
  }

  lemma ValueHasNoQuote(text: string)
    requires text != "" && text[0] == '"'
    ensures '"' !in TakeValue(text).0
  {
    var inner := text[1..];
    var close := IndexOf(inner, "\"");
    if close >= 0 && '"' in inner[..close] {
      var k :| 0 <= k < close && inner[k] == '"';
      assert "\"" <= inner[k..];
      OccursAt(inner, "\"", k);
    }
  }

  // ---------- the parameters of a printed disposition ----------

  lemma FirstIs(lead: string, x: string)
    requires lead == " " || lead == "; "
    requires x != "" && Tight(x, IsBlank) && x[0] != ';'
    ensures FirstParameter(lead + x) == x
  {
    TrimOneSpace(x, IsBlank);
    SkipSeparatorsUnfold(x);
    hide SkipSeparators, Trim;
    if lead == "; " {
      var s := lead + x;
      assert s[0] == ';' && s[|s| - 1] == x[|x| - 1] && s[1..] == " " + x;
      TrimTight(s, IsBlank);
      SkipSeparatorsUnfold(s);
    }
  }

  predicate CleanKey(key: string) {
    key != "" && '=' !in key && Tight(key, IsBlank) && key[0] != ';'
  }

  lemma PairOf(lead: string, key: string, value: string, tail: string)
    requires lead == " " || lead == "; "
    requires CleanKey(key) && '"' !in value && (tail == "" || !IsBlank(tail[|tail| - 1]))
    ensures NextParam(lead + (key + ("=" + ("\"" + (value + ("\"" + tail)))))) == Pair(key, value, tail)
  {
    var text := "\"" + (value + ("\"" + tail));
    var x := key + ("=" + text);
    assert text[0] == '"' && !IsBlank(text[|text| - 1]);
    assert x[0] == key[0] && x[|x| - 1] == text[|text| - 1];
    FirstIs(lead, x);
    LineEnd(key, "=", text);
    Assoc(key, "=", text);
    assert x[..|key|] == key && x[|key| + 1..] == text;
    TrimTight(key, IsBlank);
    TrimTight(text, IsBlank);
    QuotedValue(value, tail);
    hide IndexOf, Trim, FirstParameter, TakeValue;
  }

  lemma NoMoreParams(cr: string)
    requires cr == "" || cr == "\r"
    ensures NextParam(cr) == NoMore
  {
    assert Trim("", IsBlank) == "";
    TrimTight("\r", IsBlank);
    SkipSeparatorsUnfold(cr);
    assert FirstParameter(cr) == cr;
    Absent(cr, "=");
    Absent(cr, ";");
  }

  predicate CleanToken(s: string) { Plain(s) && '\r' !in s && '\n' !in s }

  ghost predicate CleanPart(p: Part) {
    && CleanToken(p.name)
    && (p.filename.Some? ==> CleanToken(p.filename.value))
    && (p.contentType.Some? ==> '\r' !in p.contentType.value && '\n' !in p.contentType.value)
  }

  function OrEmpty(o: Option<string>): string { if o.None? then "" else o.value }

  function LineParams(p: Part): map<string, string> {
    var named := map["name" := p.name];
    if p.filename.None? then named else named["filename" := p.filename.value]
  }

  lemma FilenameParams(p: Part, cr: string, found: map<string, string>)
    requires CleanPart(p) && (cr == "" || cr == "\r")
    ensures Params(FilenameText(p) + cr, found) ==
              if p.filename.None? then found else found["filename" := p.filename.value]
  {
    NoMoreParams(cr);
    if p.filename.None? {
      assert "" + cr == cr;
      ParamsUnfold(cr, found);
    } else {
      var f := p.filename.value;
      FilenameIs(p, cr);
      PairOf("; ", "filename", f, cr);
      hide *;
      ParamsUnfold(FilenameText(p) + cr, found);
      ParamsUnfold(cr, found["filename" := f]);
    }
  }

  lemma FilenameIs(p: Part, cr: string)
    requires CleanPart(p) && p.filename.Some?
    ensures FilenameText(p) + cr == "; " + ("filename" + ("=" + ("\"" + (p.filename.value + ("\"" + cr)))))
  {
    QuoteFacts(p.filename.value);
    hide Quote;
  }

  lemma NameParams(p: Part, cr: string)
    requires CleanPart(p) && (cr == "" || cr == "\r")
    ensures Params(" " + ("name" + ("=" + ("\"" + (p.name + ("\"" + (FilenameText(p) + cr)))))), map[]) == LineParams(p)
  {
    var tail := FilenameText(p) + cr;
    assert tail == "" || !IsBlank(tail[|tail| - 1]);
    PairOf(" ", "name", p.name, tail);
    hide NextParam, Params, FilenameText;
    ParamsUnfold(" " + ("name" + ("=" + ("\"" + (p.name + ("\"" + tail))))), map[]);
    FilenameParams(p, cr, map["name" := p.name]);
  }

  lemma PrefixFacts()
    ensures ';' !in DispositionPrefix() && '\n' !in DispositionPrefix() && '\r' !in DispositionPrefix()
    ensures "Content-Disposition:" <= DispositionPrefix()
  {}

  lemma DispositionText(p: Part, cr: string)
    requires CleanPart(p)
    ensures Disposition(p) + cr ==
        DispositionPrefix() + (";" + (" " + ("name" + ("=" + ("\"" + (p.name + ("\"" + (FilenameText(p) + cr))))))))
  {
    PrefixFacts();
    QuoteFacts(p.name);
    hide DispositionPrefix, FilenameText, Quote;
  }

  lemma DispositionParamsAre(p: Part, cr: string)
    requires CleanPart(p) && (cr == "" || cr == "\r")
    ensures DispositionParams(Disposition(p) + cr) == LineParams(p)
  {
    DispositionText(p, cr);
    PrefixFacts();
    NameParams(p, cr);
    hide DispositionPrefix, Params, Disposition, IndexOf, FilenameText;
    var rest := " " + ("name" + ("=" + ("\"" + (p.name + ("\"" + (FilenameText(p) + cr))))));
    LineEnd(DispositionPrefix(), ";", rest);
    Assoc(DispositionPrefix(), ";", rest);
    assert (DispositionPrefix() + (";" + rest))[|DispositionPrefix()| + 1..] == rest;
  }

  // ---------- the headers of a printed part ----------

  function Headers(p: Part): string { Joined(PartLines(p)) }

  lemma HeadersAre(p: Part)
    ensures p.contentType.None? ==> Headers(p) == Disposition(p)
    ensures p.contentType.Some? ==> Headers(p) == Disposition(p) + (CRLF + TypeLine(p.contentType.value))
  {
    var ls := PartLines(p);
    JoinedUnfold(ls);
    if p.contentType.Some? {
      JoinedUnfold(ls[1..]);
    }
    hide Disposition, TypeLine;
  }

  lemma DispositionIsClean(p: Part)
    requires CleanPart(p)
    ensures '\r' !in Disposition(p) && '\n' !in Disposition(p) && DispositionPrefix() <= Disposition(p)
    ensures Disposition(p)[|Disposition(p)| - 1] == '"' && Disposition(p)[0] == 'C'
  {
    PrefixFacts();
    QuoteFacts(p.name);
    FilenameIsClean(p);
    hide DispositionPrefix, Quote, FilenameText;
  }

  lemma FilenameIsClean(p: Part)
    requires CleanPart(p)
    ensures '\r' !in FilenameText(p) && '\n' !in FilenameText(p)
    ensures FilenameText(p) != "" ==> FilenameText(p)[|FilenameText(p)| - 1] == '"'
  {
    if p.filename.Some? { QuoteFacts(p.filename.value); }
    hide Quote;
  }

  /** A line up to the newline, when one follows. */
  lemma LineBefore(a: string, b: string)
    requires '\n' !in a
    ensures LineAt(a + ("\n" + b), 0) == a && LineAt(a, 0) == a
  {
    LineEnd(a, "\n", b);
    Absent(a, "\n");
    Assoc(a, "\n", b);
    hide IndexOf;
    var s := a + ("\n" + b);
    assert s[0..] == s && s[..|a|] == a && a[0..] == a;
  }

  lemma LineAtDrop(s: string, at: nat)
    requires at <= |s|
    ensures LineAt(s, at) == LineAt(s[at..], 0)
  {
    assert s[at..][0..] == s[at..];
  }

  /** The disposition line keeps the carriage return when another header follows. */
  function LineRest(p: Part): string { if p.contentType.None? then "" else "\r" }

  lemma HeadersSplit(p: Part)
    ensures Headers(p) == (Disposition(p) + LineRest(p))
              + if p.contentType.None? then "" else "\n" + TypeLine(p.contentType.value)
  {
    HeadersAre(p);
    hide Disposition, TypeLine, Headers;
  }

  lemma HeadersStart(p: Part)
    requires CleanPart(p)
    ensures IndexOf(Headers(p), "Content-Disposition:") == 0
  {
    DispositionIsClean(p);
    PrefixFacts();
    HeadersSplit(p);
    var d, t := Disposition(p), LineRest(p) + if p.contentType.None? then "" else "\n" + TypeLine(p.contentType.value);
    hide Disposition, TypeLine, Headers, DispositionPrefix, IndexOf, LineRest;
    assert Headers(p) == d + t;
    PrefixOfPrefix("Content-Disposition:", DispositionPrefix(), d);
    PrefixOfPrefix("Content-Disposition:", d, d + t);
    StartsWith(d + t, "Content-Disposition:");
  }

  lemma PrefixOfPrefix(a: string, b: string, c: string)
    requires a <= b && b <= c
    ensures a <= c
  {}

  lemma DispositionLine(p: Part)
    requires CleanPart(p)
    ensures LineAt(Headers(p), 0) == Disposition(p) + LineRest(p)
  {
    DispositionIsClean(p);
    HeadersSplit(p);
    var line := Disposition(p) + LineRest(p);
    assert '\n' !in line;
    hide *;
    if p.contentType.None? {
      assert line + "" == line;
      LineBefore(line, "");
    } else {
      LineBefore(line, TypeLine(p.contentType.value));
    }
  }

  lemma ParamsOfHeaders(p: Part)
    requires CleanPart(p)
    ensures ParamsOf(Headers(p)) == LineParams(p)
  {
    HeadersStart(p);
    DispositionLine(p);
    DispositionParamsAre(p, LineRest(p));
    hide Disposition, Headers, DispositionParams, IndexOf, LineParams, LineAt;
  }

  lemma StartsWith(s: string, pat: string)
    requires pat <= s
    ensures IndexOf(s, pat) == 0
  {}

  // ---------- the content type ----------

  lemma MarkerFacts()
    ensures '"' !in TypeMarker() && '\r' !in TypeMarker() && TypeMarker() != "" && |TypeMarker()| == 13
    ensures TypeMarker()[12] == ':' && ':' !in TypeMarker()[..12]
    ensures !Occurs(DispositionPrefix() + (";" + (" " + ("name" + "="))), TypeMarker())
    ensures !Occurs("; " + ("filename" + "="), TypeMarker())
    ensures TypeMarker() == TypeMarker()[..12] + ":"
  {
    NotInPrefix();
    Absent("; " + ("filename" + "="), TypeMarker());
  }

  lemma NotInPrefix()
    ensures !Occurs(DispositionPrefix() + (";" + (" " + ("name" + "="))), TypeMarker())
  {
    var s := "Content-Disposition: form-data; name=";
    assert s == DispositionPrefix() + (";" + (" " + ("name" + "=")));
    forall k | 0 <= k < |s| + 1 && k <= |s| ensures !(TypeMarker() <= s[k..]) {
      if k == 0 { NotAt(s, TypeMarker(), 0, 8); }
      else if k < |s| { NotAt(s, TypeMarker(), k, 0); }
    }
    hide IndexOf;
    IndexOfNone(s, TypeMarker());
  }

  /** The marker occurs in the disposition line only where the caller put it. */
  lemma MarkerInDisposition(p: Part)
    requires CleanPart(p)
    ensures Occurs(Disposition(p), TypeMarker()) <==> MarkerInToken(p)
  {
    MarkerFacts();
    QuoteFacts(p.name);
    var start, m := DispositionPrefix() + (";" + (" " + ("name" + "="))), TypeMarker();
    var rest := p.name + (['"'] + FilenameText(p));
    hide Occurs, DispositionPrefix, TypeMarker, Quote, FilenameText;
    assert Disposition(p) == start + (['"'] + rest);
    AcrossMark(start, '"', rest, m);
    AcrossMark(p.name, '"', FilenameText(p), m);
    MarkerInFilename(p);
  }

  lemma FilenameShape(p: Part)
    requires CleanPart(p) && p.filename.Some?
    ensures FilenameText(p) == ("; " + ("filename" + "=")) + (['"'] + (p.filename.value + (['"'] + "")))
  {
    QuoteFacts(p.filename.value);
    hide Quote;
  }

  lemma MarkerInFilename(p: Part)
    requires CleanPart(p)
    ensures Occurs(FilenameText(p), TypeMarker()) <==> p.filename.Some? && Occurs(p.filename.value, TypeMarker())
  {
    MarkerFacts();
    Absent("", TypeMarker());
    if p.filename.Some? {
      var f, m := p.filename.value, TypeMarker();
      FilenameShape(p);
      assert !Occurs("", m);
      hide *;
      AcrossMark("; " + ("filename" + "="), '"', f + (['"'] + ""), m);
      AcrossMark(f, '"', "", m);
    }
  }

  /** A name or file name that looks like a content-type header. */
  predicate MarkerInToken(p: Part) {
    Occurs(p.name, TypeMarker()) || (p.filename.Some? && Occurs(p.filename.value, TypeMarker()))
  }

  lemma SecondLineFirst(d: string, t: string, m: string)
    requires !Occurs(d, m) && m != "" && '\r' !in m && '\n' !in m && m <= t
    ensures IndexOf(d + (CRLF + t), m) == |d| + 2
  {
    Absent("\n", m);
    assert !Occurs("\n", m);
    hide *;
    AcrossMark(d, '\r', "\n", m);
    var text := d + (['\r'] + "\n");
    assert text[|text| - 1] == '\n' && text == d + CRLF;
    NextDelimiter(text, t, m);
    Assoc(d, CRLF, t);
  }

  lemma TypeOfAt(headers: string, at: nat, line: string, colon: nat)
    requires at == IndexOf(headers, TypeMarker()) && line == LineAt(headers, at) && colon == IndexOf(line, ":")
    ensures TypeOf(headers) == Trim(line[colon + 1..], IsBlank)
  {
    hide IndexOf, TypeMarker, LineAt, Trim;
  }

  lemma TypeLineType(contentType: string)
    requires '\n' !in contentType
    ensures var t := TypeLine(contentType);
            IndexOf(t, ":") == 12 && LineAt(t, 0) == t && Trim(t[13..], IsBlank) == Trim(contentType, IsBlank)
  {
    var t := TypeLine(contentType);
    MarkerFacts();
    LineEnd(TypeMarker()[..12], ":", " " + contentType);
    assert t == TypeMarker()[..12] + ":" + (" " + contentType);
    assert '\n' !in TypeMarker();
    LineBefore(t, "");
    assert t[13..] == " " + contentType;
    SkipFrontUnfold(" " + contentType, IsBlank);
    assert (" " + contentType)[1..] == contentType;
  }

  /** Without a marker in the tokens the content type comes back, up to blanks at its ends. */
  lemma TypeSurvives(p: Part)
    requires CleanPart(p) && !MarkerInToken(p)
    ensures TypeOf(Headers(p)) == Trim(OrEmpty(p.contentType), IsBlank)
  {
    MarkerInDisposition(p);
    HeadersAre(p);
    if p.contentType.None? {
      NoType(Disposition(p));
    } else {
      SecondLineType(Disposition(p), p.contentType.value);
    }
    hide Headers, Disposition, TypeOf, Trim;
  }

  lemma NoType(d: string)
    requires !Occurs(d, TypeMarker())
    ensures TypeOf(d) == "" && Trim("", IsBlank) == ""
  {
    hide IndexOf, TypeMarker;
  }

  lemma SecondLineType(d: string, contentType: string)
    requires !Occurs(d, TypeMarker()) && '\n' !in contentType
    ensures TypeOf(d + (CRLF + TypeLine(contentType))) == Trim(contentType, IsBlank)
  {
    var t := TypeLine(contentType);
    MarkerFacts();
    assert '\n' !in TypeMarker() && TypeMarker() <= t;
    hide *;
    SecondLineFirst(d, t, TypeMarker());
    TypeLineType(contentType);
    var h := d + (CRLF + t);
    DropSecond(d, t);
    LineAtDrop(h, |d| + 2);
    TypeOfAt(h, |d| + 2, t, 12);
  }

  lemma DropSecond(d: string, t: string)
    ensures (d + (CRLF + t))[|d| + 2..] == t
  {}

  lemma {:induction false} TrimKeepsLast(s: string)
    requires s != "" && !IsBlank(s[|s| - 1])
    ensures var t := Trim(s, IsBlank); t != "" && t[|t| - 1] == s[|s| - 1]
  {
    if IsBlank(s[0]) {
      TrimKeepsLast(s[1..]);
    }
  }

  lemma {:induction false} FrontKeepsChars(s: string, drop: char -> bool, c: char)
    requires c !in s
    ensures c !in SkipFront(s, drop)
  {
    if s != "" && drop(s[0]) { FrontKeepsChars(s[1..], drop, c); }
  }

  lemma {:induction false} BackKeepsChars(s: string, drop: char -> bool, c: char)
    requires c !in s
    ensures c !in SkipBack(s, drop)
  {
    if s != "" && drop(s[|s| - 1]) { BackKeepsChars(s[..|s| - 1], drop, c); }
  }

  /** The line from a marker inside the first line on. */
  lemma StolenLine(line: string, rest: string, at: nat)
    requires '\n' !in line && at <= |line| && (rest == "" || rest[0] == '\n')
    ensures LineAt(line + rest, at) == line[at..]
  {
    hide LineAt;
    var l := line[at..];
    LineAtDrop(line + rest, at);
    assert (line + rest)[at..] == l + rest;
    if rest == "" {
      assert l + rest == l;
      LineBefore(l, "");
    } else {
      assert rest == "\n" + rest[1..];
      LineBefore(l, rest[1..]);
    }
  }

  /** Where the marker is found, and that the disposition line reaches beyond it. */
  lemma StolenAt(p: Part)
    requires CleanPart(p) && MarkerInToken(p)
    ensures 0 <= IndexOf(Headers(p), TypeMarker()) && IndexOf(Headers(p), TypeMarker()) + 13 < |Disposition(p)|
  {
    MarkerInDisposition(p);
    DispositionIsClean(p);
    HeadersSplit(p);
    MarkerFacts();
    var d, m := Disposition(p), TypeMarker();
    var rest := if p.contentType.None? then "" else "\n" + TypeLine(p.contentType.value);
    hide *;
    Assoc(d, LineRest(p), rest);
    OccursInPrefix(d, LineRest(p) + rest, m);
    EndsWithQuote(d, m);
  }

  lemma EndsWithQuote(d: string, m: string)
    requires Occurs(d, m) && d != "" && m != "" && d[|d| - 1] !in m
    ensures IndexOf(d, m) + |m| < |d|
  {
    var r := IndexOf(d, m);
    hide IndexOf;
    if r + |m| == |d| { NotAcross(d, m, r, |d| - 1); }
  }

  /** A marker in a token steals the content type. */
  lemma TypeStolen(p: Part)
    requires CleanPart(p) && MarkerInToken(p)
    ensures TypeOf(Headers(p)) != Trim(OrEmpty(p.contentType), IsBlank)
  {
    hide *;
    StolenAt(p);
    FirstLineFacts(p);
    var last := if p.contentType.None? then '"' else '\r';
    LastStolen(Disposition(p) + LineRest(p), HeaderTail(p), last);
    LastDiffers(p, last);
  }

  lemma LastStolen(line: string, rest: string, last: char)
    requires '\n' !in line && (rest == "" || rest[0] == '\n') && line != "" && line[|line| - 1] == last
    requires last == '"' || last == '\r'
    requires IndexOf(line + rest, TypeMarker()) >= 0 && IndexOf(line + rest, TypeMarker()) + 13 < |line|
    ensures last in TypeOf(line + rest)
  {
    var at := IndexOf(line + rest, TypeMarker());
    FoundIsThere(line + rest, TypeMarker());
    MarkerFacts();
    assert !IsBlank(last);
    hide *;
    StolenLine(line, rest, at);
    PrefixAt(line, rest, TypeMarker(), at);
    StolenType(line + rest, at, line[at..], last);
  }

  function HeaderTail(p: Part): string {
    if p.contentType.None? then "" else "\n" + TypeLine(p.contentType.value)
  }

  lemma FirstLineFacts(p: Part)
    requires CleanPart(p)
    ensures var line, rest := Disposition(p) + LineRest(p), HeaderTail(p);
            && Headers(p) == line + rest && '\n' !in line && (rest == "" || rest[0] == '\n')
            && |line| >= |Disposition(p)| > 0 && line[|line| - 1] == if p.contentType.None? then '"' else '\r'
  {
    HeadersSplit(p);
    DispositionIsClean(p);
    hide Disposition, TypeLine, Headers;
  }

  lemma PrefixAt(line: string, rest: string, m: string, at: nat)
    requires at + |m| <= |line| && m <= (line + rest)[at..]
    ensures m <= line[at..]
  {
    assert line[at..][..|m|] == (line + rest)[at..][..|m|];
  }

  lemma NoCarriageReturn(s: string)
    requires '\r' !in s
    ensures '\r' !in Trim(s, IsBlank)
  {
    FrontKeepsChars(s, IsBlank, '\r');
    BackKeepsChars(SkipFront(s, IsBlank), IsBlank, '\r');
  }

  lemma LastDiffers(p: Part, last: char)
    requires CleanPart(p) && last == if p.contentType.None? then '"' else '\r'
    ensures last !in Trim(OrEmpty(p.contentType), IsBlank)
  {
    NoCarriageReturn(OrEmpty(p.contentType));
  }

  lemma StolenType(headers: string, at: nat, line: string, last: char)
    requires at == IndexOf(headers, TypeMarker()) && line == LineAt(headers, at)
    requires |line| > 13 && TypeMarker() <= line && line[|line| - 1] == last && !IsBlank(last)
    ensures last in TypeOf(headers)
  {
    ColonAt(line);
    hide *;
    TypeOfAt(headers, at, line, 12);
    TrimKeepsLast(line[13..]);
  }

  lemma ColonAt(line: string)
    requires |line| > 13 && TypeMarker() <= line
    ensures IndexOf(line, ":") == 12
  {
    MarkerFacts();
    var tail := line[13..];
    assert line == TypeMarker()[..12] + ":" + tail;
    hide *;
    LineEnd(TypeMarker()[..12], ":", tail);
  }

  // ---------- one part ----------

  lemma BreaksGo(value: string)
    ensures SkipBack(value + CRLF, IsBreak) == SkipBack(value, IsBreak)
  {
    var s := value + CRLF;
    assert s[..|s| - 1] == value + "\r";
    assert (value + "\r")[..|value|] == value;
    SkipBackUnfold(s, IsBreak);
    SkipBackUnfold(value + "\r", IsBreak);
  }

  lemma PartTextSplit(p: Part)
    ensures PartText(p) == Headers(p) + (BLANK_LINE + (p.value + CRLF))
  {
    JoinedIsLines(PartLines(p));
    assert BLANK_LINE == CRLF + CRLF;
    hide PartLines, Joined, Lines;
    Assoc(Headers(p), CRLF, CRLF + (p.value + CRLF));
    Assoc(CRLF, CRLF, p.value + CRLF);
  }

  lemma LinesAreClean(p: Part)
    requires CleanPart(p)
    ensures CleanLines(PartLines(p))
  {
    DispositionIsClean(p);
    MarkerFacts();
    hide Disposition, TypeMarker;
  }

  lemma PartEnds(h: string, value: string)
    requires IndexOf(h + (BLANK_LINE + (value + CRLF)), BLANK_LINE) == |h|
    ensures ParsePart(h + (BLANK_LINE + (value + CRLF))) == Some(FieldOf(h, SkipBack(value, IsBreak)))
  {
    var part := h + (BLANK_LINE + (value + CRLF));
    assert part[..|h|] == h && part[|h|] == '\r' && part[|h|..] == BLANK_LINE + (value + CRLF);
    assert part[|h|..][4..] == value + CRLF;
    BreaksGo(value);
    hide IndexOf, FieldOf, SkipBack;
  }

  lemma PrintedPart(p: Part)
    requires CleanPart(p)
    ensures ParsePart(PartText(p)) == Some(FieldOf(Headers(p), SkipBack(p.value, IsBreak)))
  {
    PartTextSplit(p);
    LinesAreClean(p);
    FirstBlankLine(PartLines(p), p.value + CRLF);
    PartEnds(Headers(p), p.value);
    hide PartLines, PartText, IndexOf, ParsePart, FieldOf, Joined;
  }

  /** What a part should come back as: blanks around the content type and line
      breaks behind the data are not kept. */
  function Expected(p: Part): Field {
    Field(p.name, OrEmpty(p.filename), Trim(OrEmpty(p.contentType), IsBlank), SkipBack(p.value, IsBreak))
  }

  lemma Lookups(p: Part)
    ensures Lookup(LineParams(p), "name") == p.name && Lookup(LineParams(p), "filename") == OrEmpty(p.filename)
  {
    assert "name" != "filename" by { assert |"name"| != |"filename"|; }
  }

  /** A printed part parses to its name, file name and data, and to its content
      type exactly when neither token looks like a content-type header. */
  lemma PartRoundTrip(p: Part)
    requires CleanPart(p)
    ensures var f := ParsePart(PartText(p));
            && f.Some? && f.value.(contentType := "") == Expected(p).(contentType := "")
            && (f.value.contentType == Expected(p).contentType <==> !MarkerInToken(p))
  {
    PrintedPart(p);
    ParamsOfHeaders(p);
    Lookups(p);
    if MarkerInToken(p) { TypeStolen(p); } else { TypeSurvives(p); }
    hide Headers, ParsePart, PartText, ParamsOf, TypeOf, Trim, SkipBack, Lookup, LineParams, MarkerInToken, CleanPart;
  }

  // ---------- the whole body ----------

  predicate CleanBoundary(b: string) { '\r' !in b && '\n' !in b }

  ghost predicate Printable(parts: seq<Part>, boundary: string) {
    forall i :: 0 <= i < |parts| ==>
      CleanPart(parts[i]) && !MarkerInToken(parts[i]) && !Occurs(PartText(parts[i]), Delimiter(boundary))
  }

  lemma PartTextEnds(p: Part)
    requires CleanPart(p)
    ensures PartText(p) != "" && PartText(p)[0] == 'C' && PartText(p)[|PartText(p)| - 1] == '\n'
  {
    PartTextSplit(p);
    FirstLineFacts(p);
    DispositionIsClean(p);
    hide PartText, Headers, Disposition, LineRest, HeaderTail;
  }

  lemma DelimiterStarts(b: string, rest: string)
    ensures IndexOf(Delimiter(b) + rest, Delimiter(b)) == 0
    ensures (Delimiter(b) + rest)[|Delimiter(b)|..] == rest
  {
    StartsWith(Delimiter(b) + rest, Delimiter(b));
  }

  lemma SkipCrlf(text: string)
    requires text != "" && !IsBreak(text[0])
    ensures SkipFront(CRLF + text, IsBreak) == text
  {
    assert (CRLF + text)[1..] == "\n" + text && ("\n" + text)[1..] == text;
    SkipFrontUnfold(CRLF + text, IsBreak);
    SkipFrontUnfold("\n" + text, IsBreak);
    SkipFrontUnfold(text, IsBreak);
  }

  lemma OnePart(text: string, rest: string, b: string)
    requires CleanBoundary(b) && Delimiter(b) <= rest && !Occurs(text, Delimiter(b))
    requires text != "" && text[0] == 'C' && text[|text| - 1] == '\n'
    ensures NextPart(Delimiter(b) + (CRLF + (text + rest)), b) == Some((text, rest))
  {
    var d := Delimiter(b);
    assert '\n' !in d && d != "";
    SkipCrlf(text + rest);
    hide IndexOf, Delimiter, SkipFront;
    DelimiterStarts(b, CRLF + (text + rest));
    NextDelimiter(text, rest, d);
    NextPartIs(d + (CRLF + (text + rest)), b, |d|, text + rest, |text|);
    assert (text + rest)[..|text|] == text && (text + rest)[|text|..] == rest;
  }

  lemma BodyStarts(parts: seq<Part>, b: string)
    ensures Delimiter(b) <= Body(parts, b)
  {
    hide PartText, Delimiter;
  }

  lemma BodyUnfold(parts: seq<Part>, b: string)
    requires parts != []
    ensures Body(parts, b) == Delimiter(b) + (CRLF + (PartText(parts[0]) + Body(parts[1..], b)))
  {
    Assoc(Delimiter(b), CRLF, PartText(parts[0]) + Body(parts[1..], b));
    hide PartText, Delimiter;
  }

  lemma Closing(b: string)
    requires CleanBoundary(b)
    ensures SkipFront("--" + CRLF, IsBreak) == "--" + CRLF
    ensures b != "" ==> PartEnd("--" + CRLF, b) < 0
    ensures b == "" ==> PartEnd("--" + CRLF, b) == 0
  {
    var s, d := "--" + CRLF, Delimiter(b);
    if b == "" {
      StartsWith(s, d);
    } else {
      NoDelimiterInClosing(b, d);
      NoDelimiterInClosing(b, d + "--");
    }
  }

  lemma NoDelimiterInClosing(b: string, d: string)
    requires CleanBoundary(b) && b != "" && Delimiter(b) <= d
    ensures IndexOf("--" + CRLF, d) < 0
  {
    var s := "--" + CRLF;
    assert |d| >= 3 && d[0] == '-' && d[1] == '-' && d[2] == b[0];
    forall k | 0 <= k < |s| + 1 && k <= |s| ensures !(d <= s[k..]) {
      if k == 0 { NotAt(s, d, 0, 2); } else if k == 1 { NotAt(s, d, 1, 1); } else if k < 4 { NotAt(s, d, k, 0); }
    }
    hide IndexOf;
    IndexOfNone(s, d);
  }

  function AddAll(form: Form, fields: seq<Field>): Form
    decreases |fields|
  {
    if fields == [] then form else AddAll(Add(form, fields[0]), fields[1..])
  }

  function AllExpected(parts: seq<Part>): seq<Field> {
    if parts == [] then [] else [Expected(parts[0])] + AllExpected(parts[1..])
  }

  /** With an empty boundary the closing delimiter reads as one more, headerless part. */
  lemma ParseClosing(b: string, form: Form)
    requires CleanBoundary(b)
    ensures Parse(Delimiter(b) + ("--" + CRLF), b, form) == if b == "" then Looping else Parsed(form)
  {
    var rest := Delimiter(b) + ("--" + CRLF);
    DelimiterStarts(b, "--" + CRLF);
    Closing(b);
    var end := PartEnd("--" + CRLF, b);
    NextPartIs(rest, b, |Delimiter(b)|, "--" + CRLF, end);
    ParseUnfold(rest, b, form);
    if b == "" {
      EmptyPart();
      assert ("--" + CRLF)[..0] == "";
    }
    hide *;
  }

  lemma EmptyPart()
    ensures ParsePart("") == None
  {
    assert !(BLANK_LINE <= "") && !("\n\n" <= "");
  }

  lemma PrintableTail(parts: seq<Part>, b: string)
    requires parts != [] && Printable(parts, b)
    ensures CleanPart(parts[0]) && !MarkerInToken(parts[0]) && !Occurs(PartText(parts[0]), Delimiter(b))
    ensures Printable(parts[1..], b)
  {
    hide CleanPart, MarkerInToken, Occurs, PartText, Delimiter;
  }

  lemma ExpectedPart(p: Part)
    requires CleanPart(p) && !MarkerInToken(p)
    ensures ParsePart(PartText(p)) == Some(Expected(p))
  {
    PartRoundTrip(p);
    hide ParsePart, PartText, Expected, MarkerInToken, CleanPart;
  }

  lemma {:induction false} ParseBody(parts: seq<Part>, b: string, form: Form)
    requires CleanBoundary(b) && Printable(parts, b)
    ensures Parse(Body(parts, b), b, form) == if b == "" then Looping else Parsed(AddAll(form, AllExpected(parts)))
    decreases |parts|
  {
    if parts == [] {
      ParseClosing(b, form);
    } else {
      var p := parts[0];
      PrintableTail(parts, b);
      PartTextEnds(p);
      BodyStarts(parts[1..], b);
      BodyUnfold(parts, b);
      ExpectedPart(p);
      AddAllStep(form, parts);
      hide *;
      OnePart(PartText(p), Body(parts[1..], b), b);
      ParseUnfold(Body(parts, b), b, form);
      ParseBody(parts[1..], b, Add(form, Expected(p)));
    }
  }

  lemma AddAllStep(form: Form, parts: seq<Part>)
    requires parts != []
    ensures AddAll(form, AllExpected(parts)) == AddAll(Add(form, Expected(parts[0])), AllExpected(parts[1..]))
  {
    hide Expected, Add;
  }

  /** The fields of one name, in order. */
  function Named(parts: seq<Part>, name: string): seq<Field> {
    if parts == [] then []
    else (if parts[0].name == name then [Expected(parts[0])] else []) + Named(parts[1..], name)
  }

  ghost predicate SomeNamed(parts: seq<Part>, name: string) { exists i :: 0 <= i < |parts| && parts[i].name == name }

  function Held(form: Form, name: string): seq<Field> { if name in form then form[name] else [] }

  lemma AddHolds(form: Form, f: Field, name: string)
    ensures name in Add(form, f) <==> name in form || (name != "" && f.name == name)
    ensures Held(Add(form, f), name) == Held(form, name) + if name != "" && f.name == name then [f] else []
  {}

  lemma NamedStep(parts: seq<Part>, name: string, before: seq<Field>)
    requires parts != []
    ensures before + Named(parts, name) ==
        (before + if parts[0].name == name then [Expected(parts[0])] else []) + Named(parts[1..], name)
  {
    hide Expected;
  }

  lemma {:induction false} Grouping(parts: seq<Part>, form: Form, name: string)
    ensures var m := AddAll(form, AllExpected(parts));
            && (name in m <==> name in form || (name != "" && SomeNamed(parts, name)))
            && (name != "" ==> Held(m, name) == Held(form, name) + Named(parts, name))
  {
    if parts != [] {
      AddAllStep(form, parts);
      SomeNamedSplit(parts, name);
      NamedStep(parts, name, Held(form, name));
      ExpectedName(parts[0]);
      hide *;
      AddHolds(form, Expected(parts[0]), name);
      Grouping(parts[1..], Add(form, Expected(parts[0])), name);
    }
  }

  lemma ExpectedName(p: Part)
    ensures Expected(p).name == p.name
  {}

  lemma SomeNamedSplit(parts: seq<Part>, name: string)
    requires parts != []
    ensures SomeNamed(parts, name) <==> parts[0].name == name || SomeNamed(parts[1..], name)
  {
    if SomeNamed(parts[1..], name) {
      var i :| 0 <= i < |parts[1..]| && parts[1..][i].name == name;
      assert parts[i + 1].name == name;
    }
    if SomeNamed(parts, name) && parts[0].name != name {
      var i :| 0 <= i < |parts| && parts[i].name == name;
      assert parts[1..][i - 1].name == name;
    }
  }

  /** Any list of clean parts whose text holds no delimiter: for a non-empty
      boundary the parser returns exactly the named parts, grouped by name and in
      order; for the empty one it never returns. */
  lemma MultipartRoundTrip(parts: seq<Part>, b: string, name: string)
    requires CleanBoundary(b) && Printable(parts, b)
    ensures b == "" ==> Parse(Body(parts, b), b, map[]) == Looping
    ensures b != "" ==>
      var r := Parse(Body(parts, b), b, map[]);
      && r.Parsed?
      && (name in r.form <==> name != "" && SomeNamed(parts, name))
      && (name in r.form ==> r.form[name] == Named(parts, name))
  {
    ParseBody(parts, b, map[]);
    Grouping(parts, map[], name);
    hide Parse, Body, Named, AddAll, AllExpected, SomeNamed;
    assert [] + Named(parts, name) == Named(parts, name);
  }

  // ---------- the text itself ----------

  lemma QuotedSample()
    ensures Quote("a") == "a" && Quote("b.c") == "b.c"
  {
    QuoteFacts("a");
    QuoteFacts("b.c");
  }

  /** The disposition of a part with a file name, letter by letter. */
  lemma SampleDisposition()
    ensures Disposition(Part("a", Some("b.c"), None, "x")) ==
              "Content-Disposition: form-data" + ("; name=\"" + ("a" + ("\"" + ("; filename=\"" + ("b.c" + "\"")))))
    ensures Disposition(Part("a", None, None, "x")) == "Content-Disposition: form-data" + ("; name=\"" + ("a" + "\""))
  {
    QuotedSample();
    hide Quote, DispositionPrefix;
    PrefixSample();
    assert "; name=\"" == ";" + (" " + ("name" + ("=" + "\""))) && "; filename=\"" == FilenameStart();
  }

  lemma PrefixSample()
    ensures DispositionPrefix() == "Content-Disposition: form-data"
  {}

  /** A whole body: delimiter, headers, blank line, data, closing delimiter. */
  lemma SampleBody(p: Part)
    requires p.contentType.Some?
    ensures Body([p], "B") ==
              "--B\r\n" + ((((Disposition(p) + "\r\n") + (("Content-Type:" + (" " + p.contentType.value)) + "\r\n"))
              + ("\r\n" + (p.value + "\r\n"))) + "--B--\r\n")
  {
    PartTextIs(p);
    assert [p][1..] == [] && Body([], "B") == "--B--\r\n";
    BodyUnfold([p], "B");
    assert Delimiter("B") == "--B" && TypeLine(p.contentType.value) == "Content-Type:" + (" " + p.contentType.value);
    hide *;
  }

  // ---------- parameters written otherwise ----------

  /** A value without quotation marks ends at the next semicolon. */
  lemma UnquotedPair(lead: string, key: string, value: string, tail: string)
    requires lead == " " || lead == "; "
    requires CleanKey(key) && value != "" && Tight(value, IsBlank) && value[0] != '\"' && ';' !in value
    requires tail == "" || (tail[0] == ';' && !IsBlank(tail[|tail| - 1]))
    ensures NextParam(lead + (key + ("=" + (value + tail)))) == Pair(key, value, if tail == "" then "" else tail[1..])
  {
    var text := value + tail;
    var x := key + ("=" + text);
    assert !IsBlank(text[0]) && !IsBlank(text[|text| - 1]);
    assert x[0] == key[0] && x[|x| - 1] == text[|text| - 1];
    FirstIs(lead, x);
    LineEnd(key, "=", text);
    Assoc(key, "=", text);
    assert x[..|key|] == key && x[|key| + 1..] == text;
    TrimTight(key, IsBlank);
    TrimTight(text, IsBlank);
    UnquotedValue(value, tail);
    hide IndexOf, Trim, FirstParameter, TakeValue;
  }

  lemma UnquotedValue(value: string, tail: string)
    requires value != "" && value[0] != '\"' && ';' !in value && (tail == "" || tail[0] == ';')
    ensures TakeValue(value + tail) == (value, if tail == "" then "" else tail[1..])
  {
    UpToSemicolon(value, tail);
    hide IndexOf;
    assert tail == "" ==> value + tail == value;
    assert (value + tail)[0] == value[0] && (value + tail)[..|value|] == value;
  }

  /** A quotation mark that is never closed gives an empty value, and reading goes on behind it. */
  lemma UnterminatedQuote(text: string)
    requires '\"' !in text
    ensures TakeValue("\"" + text) == ("", text)
  {
    Absent(text, "\"");
    assert ("\"" + text)[1..] == text;
    hide IndexOf;
  }

  /** Text without an equals sign is skipped up to the next semicolon, or to the end. */
  lemma JunkIsSkipped(junk: string, tail: string)
    requires junk != "" && Tight(junk, IsBlank) && '=' !in junk && ';' !in junk
    requires tail == "" || (tail[0] == ';' && '=' !in tail && !IsBlank(tail[|tail| - 1]))
    ensures NextParam(" " + (junk + tail)) == if tail == "" then NoMore else Junk(tail[1..])
  {
    var x := junk + tail;
    assert junk[0] in junk && x[0] == junk[0];
    assert x[|x| - 1] == if tail == "" then junk[|junk| - 1] else tail[|tail| - 1];
    FirstIs(" ", x);
    Absent(x, "=");
    UpToSemicolon(junk, tail);
    hide IndexOf, FirstParameter, TakeValue, Trim;
  }

  lemma UpToSemicolon(junk: string, tail: string)
    requires ';' !in junk && (tail == "" || tail[0] == ';')
    ensures IndexOf(junk + tail, ";") == if tail == "" then -1 else |junk|
    ensures tail != "" ==> (junk + tail)[|junk| + 1..] == tail[1..]
  {
    hide IndexOf;
    if tail == "" {
      assert junk + tail == junk;
      Absent(junk, ";");
    } else {
      LineEnd(junk, ";", tail[1..]);
      Assoc(junk, ";", tail[1..]);
      assert ";" + tail[1..] == tail;
    }
  }

  // ---------- parts with bare line feeds ----------

  /** The same part as senders write it that end lines with a line feed only. */
  function LfHeaders(p: Part): string {
    if p.contentType.None? then Disposition(p) else Disposition(p) + ("\n" + TypeLine(p.contentType.value))
  }

  function LfPart(p: Part): string { LfHeaders(p) + ("\n\n" + (p.value + "\n")) }

  lemma LfParams(p: Part)
    requires CleanPart(p)
    ensures ParamsOf(LfHeaders(p)) == LineParams(p)
  {
    DispositionIsClean(p);
    PrefixFacts();
    var d := Disposition(p);
    var tail := if p.contentType.None? then "" else TypeLine(p.contentType.value);
    LineBefore(d, tail);
    DispositionParamsAre(p, "");
    assert d + "" == d;
    var h := LfHeaders(p);
    assert "Content-Disposition:" <= h by {
      PrefixOfPrefix("Content-Disposition:", DispositionPrefix(), d);
      PrefixOfPrefix("Content-Disposition:", d, h);
    }
    hide Disposition, TypeLine, LineParams, DispositionParams, LineAt, DispositionPrefix;
    StartsWith(h, "Content-Disposition:");
    hide IndexOf;
  }

  lemma LfType(p: Part)
    requires CleanPart(p) && !MarkerInToken(p)
    ensures TypeOf(LfHeaders(p)) == Trim(OrEmpty(p.contentType), IsBlank)
  {
    MarkerInDisposition(p);
    if p.contentType.None? {
      NoType(Disposition(p));
    } else {
      LfSecondLine(Disposition(p), p.contentType.value);
    }
    hide Disposition, TypeOf, Trim;
  }

  lemma LfSecondLine(d: string, contentType: string)
    requires !Occurs(d, TypeMarker()) && '\n' !in contentType
    ensures TypeOf(d + ("\n" + TypeLine(contentType))) == Trim(contentType, IsBlank)
  {
    var t := TypeLine(contentType);
    MarkerFacts();
    assert '\n' !in TypeMarker() && TypeMarker() <= t;
    Absent("", TypeMarker());
    assert !Occurs("", TypeMarker());
    hide *;
    AcrossMark(d, '\n', "", TypeMarker());
    var text := d + (['\n'] + "");
    assert text[|text| - 1] == '\n' && text == d + "\n";
    NextDelimiter(text, t, TypeMarker());
    Assoc(d, "\n", t);
    TypeLineType(contentType);
    var h := d + ("\n" + t);
    assert h[|d| + 1..] == t;
    LineAtDrop(h, |d| + 1);
    TypeOfAt(h, |d| + 1, t, 12);
  }

  lemma LfEnd(p: Part)
    requires CleanPart(p)
    ensures IndexOf(LfPart(p), "\n\n") == |LfHeaders(p)|
  {
    DispositionIsClean(p);
    MarkerFacts();
    var h, rest := LfHeaders(p), p.value + "\n";
    var s := LfPart(p);
    assert s == h + ("\n\n" + rest);
    var d := Disposition(p);
    if p.contentType.Some? {
      var t := TypeLine(p.contentType.value);
      assert '\n' !in t && t[0] == 'C' && h == d + ("\n" + t);
      hide Disposition, TypeLine, TypeMarker, IndexOf;
      forall k | 0 <= k < |h| && k <= |s| ensures !("\n\n" <= s[k..]) {
        if k == |d| {
          assert s[k + 1] == t[0];
          NotAt(s, "\n\n", k, 1);
        } else {
          assert s[k] == if k < |d| then d[k] else t[k - |d| - 1];
          NotAt(s, "\n\n", k, 0);
        }
      }
      assert s[|h|..] == "\n\n" + rest;
      IndexOfIs(s, "\n\n", |h|);
    } else {
      LineEnd(h, "\n\n", rest);
      Assoc(h, "\n\n", rest);
    }
  }

  lemma BreakGoes(value: string)
    ensures SkipBack(value + "\n", IsBreak) == SkipBack(value, IsBreak)
  {
    assert (value + "\n")[..|value|] == value;
    SkipBackUnfold(value + "\n", IsBreak);
  }

  /** A part written with bare line feeds is read just the same, as long as it holds no
      blank line of the other kind. */
  lemma LfPartRoundTrip(p: Part)
    requires CleanPart(p) && !MarkerInToken(p) && !Occurs(LfPart(p), BLANK_LINE)
    ensures ParsePart(LfPart(p)) == Some(Expected(p))
  {
    LfEnd(p);
    LfParams(p);
    LfType(p);
    Lookups(p);
    BreakGoes(p.value);
    var s, h := LfPart(p), LfHeaders(p);
    assert s[..|h|] == h && s[|h|] == '\n' && s[|h|..][2..] == p.value + "\n";
    hide IndexOf, LfHeaders, TypeOf, ParamsOf, Lookup, LineParams, SkipBack, Trim;
  }
}
