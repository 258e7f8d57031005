/**
  Turning `?` placeholders into `$1`, `$2`, ... against counting them.  Both are
  hand-written scanners over quote and escape flags, and they disagree about
  backticks and about backslashes inside double quotes.
 */
module SqlRewrite {
  import opened Text

  /** The flags of the rewriter. */
  datatype Quote = Quote(single: bool, double: bool, escape: bool)

  const OUTSIDE: Quote := Quote(false, false, false)

  function Scan(q: Quote, c: char): Quote {
    if q.escape then q.(escape := false)
    else if c == '\\' && q.single then q.(escape := true)
    else if c == '\'' && !q.double then q.(single := !q.single)
    else if c == '\"' && !q.single then q.(double := !q.double)
    else q
  }

  predicate Unquoted(q: Quote) { !q.single && !q.double && !q.escape }

  predicate IsMark(q: Quote, c: char) { c == '?' && Unquoted(q) }

  function Marker(index: nat): string { "$" + Print(index, 10) }

  function Rewrite(sql: string, q: Quote, index: nat): string {
    if sql == "" then ""
    else if IsMark(q, sql[0]) then Marker(index) + Rewrite(sql[1..], q, index + 1)
    else [sql[0]] + Rewrite(sql[1..], Scan(q, sql[0]), index)
  }

  /** The flags of the counter. */
  datatype CountQuote = CountQuote(single: bool, double: bool, backtick: bool, escape: bool)

  function CountScan(q: CountQuote, c: char): CountQuote {
    if q.escape then q.(escape := false)
    else if c == '\\' && (q.single || q.double) then q.(escape := true)
    else if c == '\'' && !q.double && !q.backtick then q.(single := !q.single)
    else if c == '\"' && !q.single && !q.backtick then q.(double := !q.double)
    else if c == '`' && !q.single && !q.double then q.(backtick := !q.backtick)
    else q
  }

  predicate IsCounted(q: CountQuote, c: char) {
    c == '?' && !q.escape && !q.single && !q.double && !q.backtick
  }

  function Count(sql: string, q: CountQuote): nat {
    if sql == "" then 0
    else (if IsCounted(q, sql[0]) then 1 else 0) + Count(sql[1..], CountScan(q, sql[0]))
  }

  // ---------- the loops ----------

  method RewriteQmarkToDollar(sql: string) returns (out: string)
    ensures out == Rewrite(sql, OUTSIDE, 1)
  {
    out := "";
    var inSingle, inDouble, escape := false, false, false;
    var index := 1;
    var i := 0;
    while i < |sql|
      invariant 0 <= i <= |sql| && index >= 1
      invariant out + Rewrite(sql[i..], Quote(inSingle, inDouble, escape), index) == Rewrite(sql, OUTSIDE, 1)
    {
      var ch := sql[i];
      assert sql[i..][0] == ch && sql[i..][1..] == sql[i + 1..];
      ghost var q := Quote(inSingle, inDouble, escape);
      if IsMark(q, ch) {
        Assoc(out, Marker(index), Rewrite(sql[i + 1..], q, index + 1));
      } else {
        Assoc(out, [ch], Rewrite(sql[i + 1..], Scan(q, ch), index));
      }
      i := i + 1;
      if escape {
        out := out + [ch];
        escape := false;
      } else if ch == '\\' && inSingle {
        out := out + [ch];
        escape := true;
      } else if ch == '\'' && !inDouble {
        inSingle := !inSingle;
        out := out + [ch];
      } else if ch == '\"' && !inSingle {
        inDouble := !inDouble;
        out := out + [ch];
      } else if ch == '?' && !inSingle && !inDouble {
        out := out + Marker(index);
        index := index + 1;
      } else {
        out := out + [ch];
      }
    }
  }

  method CountPlaceholders(sql: string) returns (count: nat)
    ensures count == Count(sql, CountQuote(false, false, false, false))
  {
    var inSingle, inDouble, inBacktick, escape := false, false, false, false;
    count := 0;
    var i := 0;
    while i < |sql|
      invariant 0 <= i <= |sql|
      invariant count + Count(sql[i..], CountQuote(inSingle, inDouble, inBacktick, escape))
             == Count(sql, CountQuote(false, false, false, false))
    {
      var ch := sql[i];
      assert sql[i..][0] == ch && sql[i..][1..] == sql[i + 1..];
      i := i + 1;
      if escape {
        escape := false;
      } else if ch == '\\' && (inSingle || inDouble) {
        escape := true;
      } else if ch == '\'' && !inDouble && !inBacktick {
        inSingle := !inSingle;
      } else if ch == '\"' && !inSingle && !inBacktick {
        inDouble := !inDouble;
      } else if ch == '`' && !inSingle && !inDouble {
        inBacktick := !inBacktick;
      } else if ch == '?' && !inSingle && !inDouble && !inBacktick {
        count := count + 1;
      }
    }
  }

  // ---------- what the rewriter does ----------

  /** The text cut at its placeholders. */
  function Segments(sql: string, q: Quote): (r: seq<string>)
    ensures |r| > 0
  {
    if sql == "" then [""]
    else if IsMark(q, sql[0]) then [""] + Segments(sql[1..], q)
    else
      var r := Segments(sql[1..], Scan(q, sql[0]));
      [[sql[0]] + r[0]] + r[1..]
  }

  function JoinMarks(parts: seq<string>): string
    requires |parts| > 0
  {
    if |parts| == 1 then parts[0] else parts[0] + ("?" + JoinMarks(parts[1..]))
  }

  function JoinNumbered(parts: seq<string>, index: nat): string
    requires |parts| > 0
  {
    if |parts| == 1 then parts[0] else parts[0] + (Marker(index) + JoinNumbered(parts[1..], index + 1))
  }

  function JoinValues(parts: seq<string>, values: seq<string>): string
    requires |parts| > 0 && |values| >= |parts| - 1
  {
    if |parts| == 1 then parts[0] else parts[0] + (values[0] + JoinValues(parts[1..], values[1..]))
  }

  lemma JoinFirst(c: string, parts: seq<string>, index: nat, values: seq<string>)
    requires |parts| > 0
    ensures JoinMarks([c + parts[0]] + parts[1..]) == c + JoinMarks(parts)
    ensures JoinNumbered([c + parts[0]] + parts[1..], index) == c + JoinNumbered(parts, index)
    ensures |values| >= |parts| - 1 ==> JoinValues([c + parts[0]] + parts[1..], values) == c + JoinValues(parts, values)
  {
    var p := [c + parts[0]] + parts[1..];
    assert p[1..] == parts[1..] && p[0] == c + parts[0] && |p| == |parts|;
    if |parts| > 1 {
      Assoc(c, parts[0], "?" + JoinMarks(parts[1..]));
      Assoc(c, parts[0], Marker(index) + JoinNumbered(parts[1..], index + 1));
      if |values| >= |parts| - 1 {
        Assoc(c, parts[0], values[0] + JoinValues(parts[1..], values[1..]));
      }
    }
  }

  lemma JoinEmpty(parts: seq<string>, index: nat, values: seq<string>)
    requires |parts| > 0
    ensures JoinMarks([""] + parts) == "?" + JoinMarks(parts)
    ensures JoinNumbered([""] + parts, index) == Marker(index) + JoinNumbered(parts, index + 1)
    ensures |values| >= |parts| ==> JoinValues([""] + parts, values) == values[0] + JoinValues(parts, values[1..])
  {
    assert ([""] + parts)[1..] == parts && ([""] + parts)[0] == "";
    Nothing("?" + JoinMarks(parts));
    Nothing(Marker(index) + JoinNumbered(parts, index + 1));
    if |values| >= |parts| { Nothing(values[0] + JoinValues(parts, values[1..])); }
  }

  lemma Nothing(s: string)
    ensures "" + s == s
  {}

  /** The rewriter numbers the placeholders from left to right and changes nothing else. */
  lemma {:induction false} RewriteNumbersPlaceholders(sql: string, q: Quote, index: nat)
    ensures JoinMarks(Segments(sql, q)) == sql
    ensures JoinNumbered(Segments(sql, q), index) == Rewrite(sql, q, index)
    decreases |sql|
  {
    if sql != "" {
      assert [sql[0]] + sql[1..] == sql;
      if IsMark(q, sql[0]) {
        RewriteNumbersPlaceholders(sql[1..], q, index + 1);
        JoinEmpty(Segments(sql[1..], q), index, []);
      } else {
        var q1 := Scan(q, sql[0]);
        RewriteNumbersPlaceholders(sql[1..], q1, index);
        JoinFirst([sql[0]], Segments(sql[1..], q1), index, []);
      }
    }
  }

  // ---------- when the counter agrees ----------

  const COUNT_OUTSIDE: CountQuote := CountQuote(false, false, false, false)

  predicate IsQuoteMark(c: char) { c == '\'' || c == '\"' }

  /** The character after which the two scanners no longer agree on what is quoted:
      a quotation mark inside backticks, or a double quote escaped by a backslash. */
  predicate Splits(q: CountQuote, c: char) {
    (q.backtick && IsQuoteMark(c)) || (q.double && q.escape && c == '\"')
  }

  predicate InStep(sql: string, q: CountQuote) {
    sql == "" || (!Splits(q, sql[0]) && InStep(sql[1..], CountScan(q, sql[0])))
  }

  /** The placeholders inside backticks. */
  function Ticked(sql: string, q: CountQuote): nat {
    if sql == "" then 0
    else (if sql[0] == '?' && q.backtick then 1 else 0) + Ticked(sql[1..], CountScan(q, sql[0]))
  }

  ghost predicate Same(q: Quote, c: CountQuote) {
    && q.single == c.single && q.double == c.double && !(c.single && c.double)
    && (c.backtick ==> !c.single && !c.double)
    && (c.escape ==> c.single || c.double)
    && q.escape == (c.escape && c.single)
  }

  lemma {:induction false} CountsAgree(sql: string, q: Quote, c: CountQuote)
    requires InStep(sql, c) && Same(q, c)
    ensures |Segments(sql, q)| == Count(sql, c) + Ticked(sql, c) + 1
    decreases |sql|
  {
    if sql != "" {
      assert Same(Scan(q, sql[0]), CountScan(c, sql[0]));
      if IsMark(q, sql[0]) { assert Scan(q, sql[0]) == q; }
      CountsAgree(sql[1..], Scan(q, sql[0]), CountScan(c, sql[0]));
    }
  }

  /** The placeholders that only the rewriter takes for one. */
  function OnlyMarked(sql: string, q: Quote, c: CountQuote): nat {
    if sql == "" then 0
    else
      (if IsMark(q, sql[0]) && !IsCounted(c, sql[0]) then 1 else 0)
      + OnlyMarked(sql[1..], Scan(q, sql[0]), CountScan(c, sql[0]))
  }

  /** The placeholders that only the counter takes for one. */
  function OnlyCounted(sql: string, q: Quote, c: CountQuote): nat {
    if sql == "" then 0
    else
      (if !IsMark(q, sql[0]) && IsCounted(c, sql[0]) then 1 else 0)
      + OnlyCounted(sql[1..], Scan(q, sql[0]), CountScan(c, sql[0]))
  }

  lemma {:induction false} ScannersBalance(sql: string, q: Quote, c: CountQuote)
    ensures |Segments(sql, q)| - 1 + OnlyCounted(sql, q, c) == Count(sql, c) + OnlyMarked(sql, q, c)
    decreases |sql|
  {
    if sql != "" {
      if IsMark(q, sql[0]) { assert Scan(q, sql[0]) == q; }
      ScannersBalance(sql[1..], Scan(q, sql[0]), CountScan(c, sql[0]));
    }
  }

  /** For every text, markers and count differ by the placeholders only one of the
      scanners sees.  As long as nothing splits the scanners those are the ones in
      backticks, so that markers match the count if and only if there are none. */
  lemma MarkersMatchTheCount(sql: string)
    ensures |Segments(sql, OUTSIDE)| - 1 + OnlyCounted(sql, OUTSIDE, COUNT_OUTSIDE)
         == Count(sql, COUNT_OUTSIDE) + OnlyMarked(sql, OUTSIDE, COUNT_OUTSIDE)
    ensures InStep(sql, COUNT_OUTSIDE) ==>
              (|Segments(sql, OUTSIDE)| - 1 == Count(sql, COUNT_OUTSIDE) <==> Ticked(sql, COUNT_OUTSIDE) == 0)
  {
    ScannersBalance(sql, OUTSIDE, COUNT_OUTSIDE);
    if InStep(sql, COUNT_OUTSIDE) {
      CountsAgree(sql, OUTSIDE, COUNT_OUTSIDE);
    }
  }

  /** No backtick outside quotes and no backslash inside double quotes. */
  predicate Plain(sql: string, q: Quote) {
    sql == "" ||
    (&& !(sql[0] == '`' && Unquoted(q))
     && !(sql[0] == '\\' && q.double && !q.single && !q.escape)
     && Plain(sql[1..], Scan(q, sql[0])))
  }

  lemma {:induction false} PlainStaysInStep(sql: string, q: Quote, c: CountQuote)
    requires Plain(sql, q) && Same(q, c) && !c.backtick && (c.escape ==> c.single)
    ensures InStep(sql, c) && Ticked(sql, c) == 0
    decreases |sql|
  {
    if sql != "" {
      PlainStaysInStep(sql[1..], Scan(q, sql[0]), CountScan(c, sql[0]));
    }
  }

  /** In particular on text without unquoted backticks and without backslashes in double quotes. */
  lemma PlainTextIsCounted(sql: string)
    requires Plain(sql, OUTSIDE)
    ensures |Segments(sql, OUTSIDE)| - 1 == Count(sql, COUNT_OUTSIDE)
  {
    PlainStaysInStep(sql, OUTSIDE, COUNT_OUTSIDE);
    MarkersMatchTheCount(sql);
  }

  // ---------- and when it cannot be relied on ----------

  function ScanAll(sql: string, q: Quote): Quote {
    if sql == "" then q else ScanAll(sql[1..], Scan(q, sql[0]))
  }

  function CountScanAll(sql: string, c: CountQuote): CountQuote {
    if sql == "" then c else CountScanAll(sql[1..], CountScan(c, sql[0]))
  }

  lemma {:induction false} Continued(a: string, b: string, q: Quote, c: CountQuote)
    ensures Count(a + b, c) == Count(a, c) + Count(b, CountScanAll(a, c))
    ensures InStep(a + b, c) <==> InStep(a, c) && InStep(b, CountScanAll(a, c))
    ensures |Segments(a + b, q)| - 1 == (|Segments(a, q)| - 1) + (|Segments(b, ScanAll(a, q))| - 1)
    decreases |a|
  {
    if a == "" {
      assert a + b == b;
    } else {
      assert (a + b)[1..] == a[1..] + b && (a + b)[0] == a[0];
      if IsMark(q, a[0]) { assert Scan(q, a[0]) == q; }
      Continued(a[1..], b, Scan(q, a[0]), CountScan(c, a[0]));
    }
  }

  lemma {:induction false} ScansStaySame(sql: string, q: Quote, c: CountQuote)
    requires InStep(sql, c) && Same(q, c)
    ensures Same(ScanAll(sql, q), CountScanAll(sql, c))
    decreases |sql|
  {
    if sql != "" {
      assert Same(Scan(q, sql[0]), CountScan(c, sql[0]));
      ScansStaySame(sql[1..], Scan(q, sql[0]), CountScan(c, sql[0]));
    }
  }

  ghost predicate Disagree(sql: string) {
    |Segments(sql, OUTSIDE)| - 1 != Count(sql, COUNT_OUTSIDE)
  }

  /** One character against both scanners. */
  lemma OneCharacter(x: char, q: Quote, c: CountQuote)
    ensures |Segments([x], q)| - 1 == if IsMark(q, x) then 1 else 0
    ensures Count([x], c) == if IsCounted(c, x) then 1 else 0
    ensures ScanAll([x], q) == Scan(q, x) && CountScanAll([x], c) == CountScan(c, x)
    ensures InStep([x], c) <==> !Splits(c, x)
  {
    assert [x][1..] == "";
  }

  lemma SplitInQuotes(q: Quote, c: CountQuote)
    requires Same(q, c) && c.double && c.escape
    ensures |Segments("\"?", q)| - 1 == 1 && Count("\"?", c) == 0
  {
    var q1, c1 := Scan(q, '\"'), CountScan(c, '\"');
    OneCharacter('\"', q, c);
    OneCharacter('?', q1, c1);
    Continued("\"", "?", q, c);
    assert "\"" + "?" == "\"?";
  }

  lemma SplitInBackticks(x: char, q: Quote, c: CountQuote)
    requires Same(q, c) && c.backtick && IsQuoteMark(x)
    ensures |Segments([x], q)| - 1 == 0 && Count([x], c) == 0
    ensures |Segments([x] + "`?", q)| - 1 == 0 && Count([x] + "`?", c) == 1
  {
    var q1, c1 := Scan(q, x), CountScan(c, x);
    OneCharacter(x, q, c);
    OneCharacter('`', q1, c1);
    OneCharacter('?', Scan(q1, '`'), CountScan(c1, '`'));
    Continued("`", "?", q1, c1);
    assert "`" + "?" == "`?";
    Continued([x], "`?", q, c);
  }

  /** Once a character has split the scanners, some continuation is counted wrongly. */
  lemma SplitsShow(sql: string, x: char) returns (tail: string)
    requires InStep(sql, COUNT_OUTSIDE) && Splits(CountScanAll(sql, COUNT_OUTSIDE), x)
    ensures Disagree(sql + ([x] + tail))
  {
    var q, c := ScanAll(sql, OUTSIDE), CountScanAll(sql, COUNT_OUTSIDE);
    CountsAgree(sql, OUTSIDE, COUNT_OUTSIDE);
    ScansStaySame(sql, OUTSIDE, COUNT_OUTSIDE);
    hide Segments, Count, InStep, ScanAll, CountScanAll;
    if c.backtick {
      SplitInBackticks(x, q, c);
      tail := if Ticked(sql, COUNT_OUTSIDE) == 0 then "`?" else "";
      assert [x] + "" == [x];
    } else {
      SplitInQuotes(q, c);
      tail := "?";
      assert [x] + "?" == "\"?";
    }
    Continued(sql, [x] + tail, OUTSIDE, COUNT_OUTSIDE);
  }

  /** Where the text first leaves step. */
  lemma {:induction false} FirstSplit(sql: string, c: CountQuote) returns (k: nat)
    requires !InStep(sql, c)
    ensures k < |sql| && InStep(sql[..k], c) && Splits(CountScanAll(sql[..k], c), sql[k])
    decreases |sql|
  {
    k := 0;
    if !Splits(c, sql[0]) {
      var j := FirstSplit(sql[1..], CountScan(c, sql[0]));
      k := j + 1;
      assert sql[..k][1..] == sql[1..][..j];
    }
  }

  /** The condition cannot be widened: whatever text is not in step has a beginning
      that already splits the scanners and can be continued so that they disagree. */
  lemma OutOfStepTextsDisagree(sql: string) returns (k: nat, tail: string)
    requires !InStep(sql, COUNT_OUTSIDE)
    ensures k <= |sql| && !InStep(sql[..k], COUNT_OUTSIDE) && Disagree(sql[..k] + tail)
  {
    var j := FirstSplit(sql, COUNT_OUTSIDE);
    tail := SplitsShow(sql[..j], sql[j]);
    k := j + 1;
    assert sql[..k] == sql[..j] + [sql[j]];
    OneCharacter(sql[j], OUTSIDE, CountScanAll(sql[..j], COUNT_OUTSIDE));
    Continued(sql[..j], [sql[j]], OUTSIDE, COUNT_OUTSIDE);
    Assoc(sql[..j], [sql[j]], tail);
  }

  /** A placeholder in backticks is rewritten but not counted. */
  lemma BackticksAreSeenByOneScannerOnly()
    ensures Rewrite("`?`", OUTSIDE, 1) == "`$1`" && Count("`?`", CountQuote(false, false, false, false)) == 0
  {
    assert Print(1, 10) == "1";
    assert "`?`"[1..] == "?`" && "?`"[1..] == "`" && "`"[1..] == "";
    assert Rewrite("`", OUTSIDE, 2) == "`";
    assert Rewrite("?`", OUTSIDE, 1) == "$1`";
    var c0, c1 := CountQuote(false, false, false, false), CountQuote(false, false, true, false);
    assert Count("`", c1) == 0;
    assert Count("?`", c1) == 0;
  }

  /** After a backslash in a double-quoted name, the counter skips the closing quote
      and the rewriter does not. */
  lemma BackslashesSplitTheScanners()
    ensures |Segments("\"\\\"?", OUTSIDE)| == 2 && Count("\"\\\"?", CountQuote(false, false, false, false)) == 0
  {
    var s0, s1, s2, s3 := "\"\\\"?", "\\\"?", "\"?", "?";
    assert s0[1..] == s1 && s1[1..] == s2 && s2[1..] == s3 && s3[1..] == "";
    var d := Quote(false, true, false);
    assert |Segments(s3, OUTSIDE)| == 2;
    assert |Segments(s2, d)| == 2;
    assert |Segments(s1, d)| == 2;
    var c, e := CountQuote(false, true, false, false), CountQuote(false, true, false, true);
    assert Count(s3, c) == 0;
    assert Count(s2, e) == 0;
    assert Count(s1, c) == 0;
  }

  // ---------- filling in ----------

  /** The value a numeral stands for; a number out of range is left as it is. */
  function Lookup(numeral: string, values: seq<string>): string {
    var k := Number(numeral, 10);
    if 1 <= k <= |values| then values[k - 1] else "$" + numeral
  }

  /** Substitutes the `k`-th value for every unquoted `$k`. */
  function Fill(text: string, q: Quote, values: seq<string>): string
    decreases |text|
  {
    if text == "" then ""
    else if text[0] == '$' && Unquoted(q) && DigitRun(text[1..], 10) > 0 then
      var n := DigitRun(text[1..], 10);
      Lookup(text[1..n + 1], values) + Fill(text[n + 1..], q, values)
    else [text[0]] + Fill(text[1..], Scan(q, text[0]), values)
  }

  /** No unquoted dollar sign, and no digit right after a placeholder. */
  predicate Fillable(sql: string, q: Quote) {
    sql == "" ||
    (&& !(sql[0] == '$' && Unquoted(q))
     && !(IsMark(q, sql[0]) && |sql| > 1 && DigitValue(sql[1]) < 10)
     && Fillable(sql[1..], Scan(q, sql[0])))
  }

  lemma RewriteHead(sql: string, q: Quote, index: nat)
    requires sql != "" ==> DigitValue(sql[0]) >= 10
    ensures Rewrite(sql, q, index) == "" || DigitValue(Rewrite(sql, q, index)[0]) >= 10
  {}

  /** Sending the rewritten text with its values means what the original text
      means with each placeholder replaced by its value. */
  lemma {:induction false} FillingRewrittenText(sql: string, q: Quote, index: nat, values: seq<string>)
    requires Fillable(sql, q) && 1 <= index && index - 1 + |Segments(sql, q)| - 1 <= |values|
    ensures Fill(Rewrite(sql, q, index), q, values) == JoinValues(Segments(sql, q), values[index - 1..])
    decreases |sql|
  {
    if sql != "" {
      var v := values[index - 1..];
      if IsMark(q, sql[0]) {
        FillingRewrittenText(sql[1..], q, index + 1, values);
        RewriteHead(sql[1..], q, index + 1);
        NumberOfPrint(index, 10);
        PrintIsDigits(index, 10);
        FillMarker(Print(index, 10), Rewrite(sql[1..], q, index + 1), q, values);
        assert v[1..] == values[index..];
        JoinEmpty(Segments(sql[1..], q), index, v);
      } else {
        var q1 := Scan(q, sql[0]);
        FillingRewrittenText(sql[1..], q1, index, values);
        FillOther(sql[0], Rewrite(sql[1..], q1, index), q, values);
        JoinFirst([sql[0]], Segments(sql[1..], q1), index, v);
      }
    }
  }

  lemma FillOther(c: char, rest: string, q: Quote, values: seq<string>)
    requires !(c == '$' && Unquoted(q))
    ensures Fill([c] + rest, q, values) == [c] + Fill(rest, Scan(q, c), values)
  {
    assert ([c] + rest)[1..] == rest;
  }

  lemma FillMarker(d: string, rest: string, q: Quote, values: seq<string>)
    requires Unquoted(q) && |d| > 0 && AllDigits(d, 10)
    requires rest == "" || DigitValue(rest[0]) >= 10
    ensures Fill(("$" + d) + rest, q, values) == Lookup(d, values) + Fill(rest, q, values)
  {
    var text := ("$" + d) + rest;
    assert text[1..] == d + rest;
    DigitRunIs(d, rest, 10);
    assert text[1..|d| + 1] == d && text[|d| + 1..] == rest;
  }
}
