/**
  SQL text put together from its lexical pieces, and what the two scanners make of it:
  a description of quoting that does not use their flags.
 */
module SqlTokens {
  import opened Text
  import opened SqlRewrite

  /** A character inside a string literal, plain or behind a backslash. */
  datatype Item = Ordinary(c: char) | Escaped(c: char)

  datatype Token =
    | Other(c: char)
    | Placeholder
    | Literal(items: seq<Item>)
    | Identifier(text: string)
    | Backticked(text: string)

  predicate GoodItem(i: Item) { i.Ordinary? ==> i.c != '\'' && i.c != '\\' }

  ghost predicate GoodToken(t: Token) {
    match t
    case Other(c) => c !in "'\"?`"
    case Placeholder => true
    case Literal(items) => forall i :: 0 <= i < |items| ==> GoodItem(items[i])
    case Identifier(text) => '\"' !in text && '\\' !in text
    case Backticked(text) => '`' !in text && '\'' !in text && '\"' !in text
  }

  function ItemText(i: Item): string { if i.Ordinary? then [i.c] else ['\\', i.c] }

  function ItemsText(items: seq<Item>): string {
    if items == [] then "" else ItemText(items[0]) + ItemsText(items[1..])
  }

  function TokenText(t: Token): string {
    match t
    case Other(c) => [c]
    case Placeholder => "?"
    case Literal(items) => "'" + (ItemsText(items) + "'")
    case Identifier(text) => "\"" + (text + "\"")
    case Backticked(text) => "`" + (text + "`")
  }

  function Printed(ts: seq<Token>): string {
    if ts == [] then "" else TokenText(ts[0]) + Printed(ts[1..])
  }

  // ---------- what should come out ----------

  function Marks(text: string): nat {
    if text == "" then 0 else (if text[0] == '?' then 1 else 0) + Marks(text[1..])
  }

  /** Every question mark numbered from `k` on. */
  function Numbered(text: string, k: nat): string {
    if text == "" then ""
    else if text[0] == '?' then ("$" + Print(k, 10)) + Numbered(text[1..], k + 1)
    else [text[0]] + Numbered(text[1..], k)
  }

  function TokenMarks(t: Token): nat {
    match t
    case Placeholder => 1
    case Backticked(text) => Marks(text)
    case _ => 0
  }

  function TokenNumbered(t: Token, k: nat): string {
    match t
    case Placeholder => "$" + Print(k, 10)
    case Backticked(text) => "`" + (Numbered(text, k) + "`")
    case _ => TokenText(t)
  }

  function AllNumbered(ts: seq<Token>, k: nat): string
    decreases |ts|
  {
    if ts == [] then "" else TokenNumbered(ts[0], k) + AllNumbered(ts[1..], k + TokenMarks(ts[0]))
  }

  function Placeholders(ts: seq<Token>): nat {
    if ts == [] then 0 else (if ts[0].Placeholder? then 1 else 0) + Placeholders(ts[1..])
  }

  // ---------- running the scanners over pieces ----------

  lemma {:induction false} RewriteOn(a: string, b: string, q: Quote, k: nat)
    ensures Rewrite(a + b, q, k) == Rewrite(a, q, k) + Rewrite(b, ScanAll(a, q), k + |Segments(a, q)| - 1)
    decreases |a|
  {
    if a == "" {
      assert a + b == b;
    } else {
      assert (a + b)[1..] == a[1..] + b && (a + b)[0] == a[0];
      var q1 := Scan(q, a[0]);
      if IsMark(q, a[0]) {
        assert q1 == q;
        RewriteOn(a[1..], b, q, k + 1);
        Assoc(Marker(k), Rewrite(a[1..], q, k + 1), Rewrite(b, ScanAll(a[1..], q), k + |Segments(a, q)| - 1));
      } else {
        RewriteOn(a[1..], b, q1, k);
        Assoc([a[0]], Rewrite(a[1..], q1, k), Rewrite(b, ScanAll(a[1..], q1), k + |Segments(a, q)| - 1));
      }
    }
  }

  lemma {:induction false} ScanOn(a: string, b: string, q: Quote, c: CountQuote)
    ensures ScanAll(a + b, q) == ScanAll(b, ScanAll(a, q))
    ensures CountScanAll(a + b, c) == CountScanAll(b, CountScanAll(a, c))
    decreases |a|
  {
    if a == "" {
      assert a + b == b;
    } else {
      assert (a + b)[1..] == a[1..] + b && (a + b)[0] == a[0];
      ScanOn(a[1..], b, Scan(q, a[0]), CountScan(c, a[0]));
    }
  }

  lemma Both(a: string, b: string, q: Quote, c: CountQuote, k: nat)
    ensures Rewrite(a + b, q, k) == Rewrite(a, q, k) + Rewrite(b, ScanAll(a, q), k + |Segments(a, q)| - 1)
    ensures |Segments(a + b, q)| - 1 == (|Segments(a, q)| - 1) + (|Segments(b, ScanAll(a, q))| - 1)
    ensures Count(a + b, c) == Count(a, c) + Count(b, CountScanAll(a, c))
    ensures ScanAll(a + b, q) == ScanAll(b, ScanAll(a, q))
    ensures CountScanAll(a + b, c) == CountScanAll(b, CountScanAll(a, c))
  {
    RewriteOn(a, b, q, k);
    ScanOn(a, b, q, c);
    Continued(a, b, q, c);
    hide Rewrite, Segments, ScanAll, Count, CountScanAll;
  }

  lemma OneOf(x: char, q: Quote, c: CountQuote, k: nat)
    ensures Rewrite([x], q, k) == if IsMark(q, x) then "$" + Print(k, 10) else [x]
    ensures |Segments([x], q)| - 1 == if IsMark(q, x) then 1 else 0
    ensures Count([x], c) == if IsCounted(c, x) then 1 else 0
    ensures ScanAll([x], q) == Scan(q, x) && CountScanAll([x], c) == CountScan(c, x)
  {
    OneCharacter(x, q, c);
    assert [x][1..] == "" && Rewrite("", q, k + 1) == "" && Rewrite("", Scan(q, x), k) == "";
    hide Print;
  }

  const IN_SINGLE: Quote := Quote(true, false, false)
  const IN_DOUBLE: Quote := Quote(false, true, false)
  const COUNT_SINGLE: CountQuote := CountQuote(true, false, false, false)
  const COUNT_DOUBLE: CountQuote := CountQuote(false, true, false, false)
  const COUNT_TICK: CountQuote := CountQuote(false, false, true, false)

  /** The piece leaves both scanners where they are, unchanged and uncounted. */
  ghost predicate Inert(text: string, q: Quote, c: CountQuote, k: nat) {
    && Rewrite(text, q, k) == text && |Segments(text, q)| == 1 && Count(text, c) == 0
    && ScanAll(text, q) == q && CountScanAll(text, c) == c
  }

  lemma InertBoth(a: string, b: string, q: Quote, c: CountQuote, k: nat)
    requires Inert(a, q, c, k) && Inert(b, q, c, k)
    ensures Inert(a + b, q, c, k)
  {
    Both(a, b, q, c, k);
    hide Rewrite, Segments, ScanAll, Count, CountScanAll;
  }

  lemma InertItem(i: Item, k: nat)
    requires GoodItem(i)
    ensures Inert(ItemText(i), IN_SINGLE, COUNT_SINGLE, k)
  {
    if i.Ordinary? {
      OneOf(i.c, IN_SINGLE, COUNT_SINGLE, k);
    } else {
      var q, c := Scan(IN_SINGLE, '\\'), CountScan(COUNT_SINGLE, '\\');
      OneOf('\\', IN_SINGLE, COUNT_SINGLE, k);
      OneOf(i.c, q, c, k);
      Both(['\\'], [i.c], IN_SINGLE, COUNT_SINGLE, k);
      assert ['\\'] + [i.c] == ItemText(i);
    }
    hide Rewrite, Segments, ScanAll, Count, CountScanAll;
  }

  lemma {:induction false} InertItems(items: seq<Item>, k: nat)
    requires forall i :: 0 <= i < |items| ==> GoodItem(items[i])
    ensures Inert(ItemsText(items), IN_SINGLE, COUNT_SINGLE, k)
    decreases |items|
  {
    if items != [] {
      InertItem(items[0], k);
      InertItems(items[1..], k);
      InertBoth(ItemText(items[0]), ItemsText(items[1..]), IN_SINGLE, COUNT_SINGLE, k);
      hide Inert;
    }
  }

  lemma {:induction false} InertName(text: string, k: nat)
    requires '\"' !in text && '\\' !in text
    ensures Inert(text, IN_DOUBLE, COUNT_DOUBLE, k)
    decreases |text|
  {
    if text != "" {
      OneOf(text[0], IN_DOUBLE, COUNT_DOUBLE, k);
      assert Inert([text[0]], IN_DOUBLE, COUNT_DOUBLE, k);
      InertName(text[1..], k);
      assert [text[0]] + text[1..] == text;
      hide Inert;
      InertBoth([text[0]], text[1..], IN_DOUBLE, COUNT_DOUBLE, k);
    }
  }

  /** Inside backticks the rewriter goes on numbering and the counter does not count. */
  lemma {:induction false} TicksAreNumbered(text: string, k: nat)
    requires '`' !in text && '\'' !in text && '\"' !in text
    ensures Rewrite(text, OUTSIDE, k) == Numbered(text, k) && |Segments(text, OUTSIDE)| - 1 == Marks(text)
    ensures Count(text, COUNT_TICK) == 0 && ScanAll(text, OUTSIDE) == OUTSIDE &&
        CountScanAll(text, COUNT_TICK) == COUNT_TICK
    decreases |text|
  {
    if text != "" {
      var x, rest := text[0], text[1..];
      TicksAreNumbered(rest, if x == '?' then k + 1 else k);
    }
  }

  /** The piece turns into `out`, taking `marks` numbers and adding `counted` to the count. */
  ghost predicate Turns(text: string, k: nat, out: string, marks: nat, counted: nat) {
    && Rewrite(text, OUTSIDE, k) == out && |Segments(text, OUTSIDE)| - 1 == marks
    && Count(text, COUNT_OUTSIDE) == counted
    && ScanAll(text, OUTSIDE) == OUTSIDE && CountScanAll(text, COUNT_OUTSIDE) == COUNT_OUTSIDE
  }

  /** A piece between two quotation marks. */
  lemma Enclosed(x: char, text: string, q: Quote, c: CountQuote, k: nat)
    requires (x == '\'' && q == IN_SINGLE && c == COUNT_SINGLE) || (x == '\"' && q == IN_DOUBLE && c == COUNT_DOUBLE)
    requires Inert(text, q, c, k)
    ensures Turns([x] + (text + [x]), k, [x] + (text + [x]), 0, 0)
  {
    OneOf(x, OUTSIDE, COUNT_OUTSIDE, k);
    OneOf(x, q, c, k);
    Both(text, [x], q, c, k);
    Both([x], text + [x], OUTSIDE, COUNT_OUTSIDE, k);
    hide Rewrite, Segments, ScanAll, Count, CountScanAll;
  }

  lemma EnclosedInTicks(text: string, k: nat)
    requires '`' !in text && '\'' !in text && '\"' !in text
    ensures Turns("`" + (text + "`"), k, "`" + (Numbered(text, k) + "`"), Marks(text), 0)
  {
    TicksAreNumbered(text, k);
    OneOf('`', OUTSIDE, COUNT_OUTSIDE, k);
    OneOf('`', OUTSIDE, COUNT_TICK, k + Marks(text));
    Both(text, "`", OUTSIDE, COUNT_TICK, k);
    Both("`", text + "`", OUTSIDE, COUNT_OUTSIDE, k);
    hide Rewrite, Segments, ScanAll, Count, CountScanAll, Numbered, Marks;
  }

  lemma TokenTurns(t: Token, k: nat)
    requires GoodToken(t)
    ensures Turns(TokenText(t), k, TokenNumbered(t, k), TokenMarks(t), if t.Placeholder? then 1 else 0)
  {
    match t
    case Other(c) => OneOf(c, OUTSIDE, COUNT_OUTSIDE, k);
    case Placeholder => OneOf('?', OUTSIDE, COUNT_OUTSIDE, k);
    case Literal(items) =>
      InertItems(items, k);
      Enclosed('\'', ItemsText(items), IN_SINGLE, COUNT_SINGLE, k);
    case Identifier(text) =>
      InertName(text, k);
      Enclosed('\"', text, IN_DOUBLE, COUNT_DOUBLE, k);
    case Backticked(text) => EnclosedInTicks(text, k);
  }

  lemma TurnsBoth(a: string, b: string, k: nat, x: string, y: string, m: nat, n: nat, i: nat, j: nat)
    requires Turns(a, k, x, m, i) && Turns(b, k + m, y, n, j)
    ensures Turns(a + b, k, x + y, m + n, i + j)
  {
    Both(a, b, OUTSIDE, COUNT_OUTSIDE, k);
    hide Rewrite, Segments, ScanAll, Count, CountScanAll;
  }

  function AllMarks(ts: seq<Token>): nat {
    if ts == [] then 0 else TokenMarks(ts[0]) + AllMarks(ts[1..])
  }

  lemma {:induction false} TokensTurn(ts: seq<Token>, k: nat)
    requires forall i :: 0 <= i < |ts| ==> GoodToken(ts[i])
    ensures Turns(Printed(ts), k, AllNumbered(ts, k), AllMarks(ts), Placeholders(ts))
    decreases |ts|
  {
    if ts != [] {
      TokenTurns(ts[0], k);
      TokensTurn(ts[1..], k + TokenMarks(ts[0]));
      TurnsBoth(TokenText(ts[0]), Printed(ts[1..]), k, TokenNumbered(ts[0], k),
          AllNumbered(ts[1..], k + TokenMarks(ts[0])),
        TokenMarks(ts[0]), AllMarks(ts[1..]), if ts[0].Placeholder? then 1 else 0, Placeholders(ts[1..]));
      hide Turns, TokenText, TokenNumbered, TokenMarks;
    }
  }

  /** On text put together from string literals with escapes, quoted identifiers,
      backticked names and other characters: the rewriter numbers exactly the
      placeholders outside literals and identifiers and leaves everything else alone, and
      the counter counts exactly the placeholders outside backticks as well. */
  lemma TokensAreHandled(ts: seq<Token>)
    requires forall i :: 0 <= i < |ts| ==> GoodToken(ts[i])
    ensures Rewrite(Printed(ts), OUTSIDE, 1) == AllNumbered(ts, 1)
    ensures Count(Printed(ts), COUNT_OUTSIDE) == Placeholders(ts)
  {
    TokensTurn(ts, 1);
  }
}
