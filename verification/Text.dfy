/** Searching, trimming and number printing, as the string functions of the C++ library do them. */
module Text {
  import opened Wrappers

  // ---------- decimal and hexadecimal numbers ----------

  const DIGITS: string := "0123456789abcdef"

  function DigitChar(d: nat): char
    requires d < 16
  {
    DIGITS[d]
  }

  /** The value of a digit in bases up to sixteen, in either case; 16 for anything else. */
  function DigitValue(c: char): (v: nat)
    ensures v <= 16
  {
    if '0' <= c <= '9' then c as nat - '0' as nat
    else if 'a' <= c <= 'f' then c as nat - 'a' as nat + 10
    else if 'A' <= c <= 'F' then c as nat - 'A' as nat + 10
    else 16
  }

  /** Prints without leading zeros, most significant digit first. */
  function Print(n: nat, base: nat): (s: string)
    requires 2 <= base <= 16
    ensures |s| > 0
    decreases n
  {
    if n < base then [DigitChar(n)] else Print(n / base, base) + [DigitChar(n % base)]
  }

  /** The number written by a string of digits. */
  function Number(s: string, base: nat): nat {
    if s == "" then 0 else Number(s[..|s| - 1], base) * base + DigitValue(s[|s| - 1])
  }

  ghost predicate AllDigits(s: string, base: nat) {
    forall i :: 0 <= i < |s| ==> DigitValue(s[i]) < base
  }

  lemma DigitRoundTrip(d: nat)
    requires d < 16
    ensures DigitValue(DigitChar(d)) == d && DigitChar(d) !in "\r\n ;"
  {}

  lemma NumberAppend(p: string, q: nat, d: nat, base: nat, n: nat)
    requires d < 16 && Number(p, base) == q && q * base + d == n
    ensures Number(p + [DigitChar(d)], base) == n
  {
    DigitRoundTrip(d);
    assert (p + [DigitChar(d)])[..|p|] == p;
  }

  /** Printing and reading a number are inverse. */
  lemma {:induction false} NumberOfPrint(n: nat, base: nat)
    requires 2 <= base <= 16
    ensures Number(Print(n, base), base) == n
    decreases n
  {
    if n < base {
      NumberAppend("", 0, n, base, n);
      assert "" + [DigitChar(n)] == Print(n, base);
    } else {
      var q, d := n / base, n % base;
      NumberOfPrint(q, base);
      DivMod(n, base);
      NumberAppend(Print(q, base), q, d, base, n);
    }
  }

  lemma DigitsAppend(s: string, d: nat, base: nat)
    requires AllDigits(s, base) && d < base <= 16
    ensures AllDigits(s + [DigitChar(d)], base)
  {
    DigitRoundTrip(d);
  }

  lemma {:induction false} PrintIsDigits(n: nat, base: nat)
    requires 2 <= base <= 16
    ensures AllDigits(Print(n, base), base)
    decreases n
  {
    if n < base {
      DigitsAppend("", n, base);
      assert "" + [DigitChar(n)] == Print(n, base);
    } else {
      var q, d := n / base, n % base;
      PrintIsDigits(q, base);
      DigitsAppend(Print(q, base), d, base);
      assert Print(n, base) == Print(q, base) + [DigitChar(d)];
    }
  }

  lemma DivMod(n: nat, base: nat)
    requires base > 0
    ensures (n / base) * base + n % base == n
  {}

  /** The longest run of digits at the front. */
  function DigitRun(s: string, base: nat): (r: nat)
    ensures r <= |s|
  {
    if s == "" || DigitValue(s[0]) >= base then 0 else 1 + DigitRun(s[1..], base)
  }

  lemma {:induction false} DigitRunIs(d: string, rest: string, base: nat)
    requires AllDigits(d, base) && (rest == "" || DigitValue(rest[0]) >= base)
    ensures DigitRun(d + rest, base) == |d|
  {
    if d == "" {
      assert d + rest == rest;
    } else {
      assert (d + rest)[1..] == d[1..] + rest;
      DigitRunIs(d[1..], rest, base);
    }
  }

  function PrintInt(n: int): string {
    if n < 0 then "-" + Print(-n, 10) else Print(n, 10)
  }

  lemma DropDrop(s: string, a: nat, b: nat)
    requires a + b <= |s|
    ensures s[a..][b..] == s[a + b..]
  {}

  lemma Assoc(a: string, b: string, c: string)
    ensures (a + b) + c == a + (b + c)
  {}

  // ---------- searching ----------

  /** Offset of the first occurrence of `pat`, or -1. */
  function IndexOf(s: string, pat: string): (r: int)
    ensures -1 <= r <= |s|
    ensures r >= 0 ==> r + |pat| <= |s| && s[r..r + |pat|] == pat
  {
    if pat <= s then 0
    else if s == "" then -1
    else
      var r := IndexOf(s[1..], pat);
      if r < 0 then -1 else r + 1
  }

  /** `pat` starts at none of the first `n` offsets of `s`. */
  ghost predicate NotWithin(s: string, pat: string, n: nat) {
    forall k :: 0 <= k < n && k <= |s| ==> !(pat <= s[k..])
  }

  /** One differing character rules out an occurrence. */
  lemma NotAt(s: string, pat: string, k: nat, j: nat)
    requires j < |pat| && k + j < |s| && s[k + j] != pat[j]
    ensures !(pat <= s[k..])
  {
    assert s[k..][j] == s[k + j];
  }

  lemma IndexOfUnfold(s: string, pat: string)
    requires s != "" && !(pat <= s)
    ensures IndexOf(s, pat) == if IndexOf(s[1..], pat) < 0 then -1 else IndexOf(s[1..], pat) + 1
  {}

  lemma {:induction false} IndexOfIs(s: string, pat: string, n: nat)
    requires n <= |s| && pat <= s[n..] && NotWithin(s, pat, n)
    ensures IndexOf(s, pat) == n
  {
    if n > 0 {
      assert !(pat <= s[0..]) && s[0..] == s;
      assert s[1..][n - 1..] == s[n..];
      forall k | 0 <= k < n - 1 && k <= |s[1..]| ensures !(pat <= s[1..][k..]) {
        assert s[1..][k..] == s[k + 1..];
      }
      IndexOfIs(s[1..], pat, n - 1);
    } else {
      assert s[0..] == s;
    }
  }

  lemma NotWithinTail(s: string, pat: string, n: nat)
    requires 0 < n && s != "" && NotWithin(s, pat, n)
    ensures !(pat <= s) && NotWithin(s[1..], pat, n - 1)
  {
    assert !(pat <= s[0..]) && s[0..] == s;
    forall k | 0 <= k < n - 1 && k <= |s[1..]| ensures !(pat <= s[1..][k..]) {
      assert s[1..][k..] == s[k + 1..];
    }
  }

  /** A search may start past offsets where nothing matches. */
  lemma {:induction false} IndexOfSkip(s: string, pat: string, n: nat)
    requires n <= |s| && NotWithin(s, pat, n) && IndexOf(s[n..], pat) >= 0
    ensures IndexOf(s, pat) == n + IndexOf(s[n..], pat)
  {
    hide IndexOf, NotWithin;
    if n == 0 {
      assert s[0..] == s;
    } else {
      NotWithinTail(s, pat, n);
      DropDrop(s, 1, n - 1);
      IndexOfSkip(s[1..], pat, n - 1);
      IndexOfUnfold(s, pat);
    }
  }

  lemma {:induction false} IndexOfNone(s: string, pat: string)
    requires NotWithin(s, pat, |s| + 1)
    ensures IndexOf(s, pat) == -1
  {
    assert !(pat <= s[0..]) && s[0..] == s;
    if s != "" {
      forall k | 0 <= k < |s[1..]| + 1 && k <= |s[1..]| ensures !(pat <= s[1..][k..]) {
        assert s[1..][k..] == s[k + 1..];
      }
      IndexOfNone(s[1..], pat);
    }
  }

  /** A line without the first character of `pat` ends at the first `pat`. */
  lemma LineEnd(line: string, pat: string, rest: string)
    requires pat != "" && pat[0] !in line
    ensures IndexOf(line + pat + rest, pat) == |line|
  {
    var s := line + pat + rest;
    assert s[|line|..] == pat + rest;
    forall k | 0 <= k < |line| && k <= |s| ensures !(pat <= s[k..]) {
      assert s[k..][0] == line[k];
    }
    IndexOfIs(s, pat, |line|);
  }

  lemma Absent(s: string, pat: string)
    requires pat != "" && pat[0] !in s
    ensures IndexOf(s, pat) == -1
  {
    forall k | 0 <= k < |s| + 1 && k <= |s| ensures !(pat <= s[k..]) {
      if k < |s| { assert s[k..][0] == s[k]; }
    }
    IndexOfNone(s, pat);
  }

  // ---------- trimming ----------

  /** `isspace` in the C locale. */
  predicate IsSpace(c: char) {
    c == ' ' || ('\t' <= c <= '\r')
  }

  function SkipFront(s: string, drop: char -> bool): (r: string)
    ensures |r| <= |s|
  {
    if s != "" && drop(s[0]) then SkipFront(s[1..], drop) else s
  }

  function SkipBack(s: string, drop: char -> bool): (r: string)
    ensures |r| <= |s|
  {
    if s != "" && drop(s[|s| - 1]) then SkipBack(s[..|s| - 1], drop) else s
  }

  function Trim(s: string, drop: char -> bool): string {
    SkipBack(SkipFront(s, drop), drop)
  }

  /** Neither end would be trimmed away. */
  predicate Tight(s: string, drop: char -> bool) {
    s == "" || (!drop(s[0]) && !drop(s[|s| - 1]))
  }

  lemma TrimTight(s: string, drop: char -> bool)
    requires Tight(s, drop)
    ensures Trim(s, drop) == s
  {}

  lemma TrimOneSpace(s: string, drop: char -> bool)
    requires Tight(s, drop) && drop(' ')
    ensures Trim(" " + s, drop) == s
  {
    assert (" " + s)[1..] == s && (" " + s)[0] == ' ';
    assert SkipFront(" " + s, drop) == SkipFront(s, drop) == s;
  }

  // ---------- letter case ----------

  /** The same letter in either case. */
  predicate SameLetter(a: char, b: char) {
    || a == b
    || ('A' <= a <= 'Z' && b as int == a as int + 32)
    || ('A' <= b <= 'Z' && a as int == b as int + 32)
  }

  ghost predicate SameIgnoringCase(a: string, b: string) {
    |a| == |b| && forall i :: 0 <= i < |a| ==> SameLetter(a[i], b[i])
  }
}
