/** Lines ended by CRLF, and the blank line that ends a block of them. */
module TextLines {
  import opened Text

  const CRLF: string := "\r\n"
  const BLANK_LINE: string := "\r\n\r\n"

  function Lines(ls: seq<string>): string {
    if ls == [] then "" else (ls[0] + CRLF) + Lines(ls[1..])
  }

  lemma {:induction false} LinesAppend(a: seq<string>, b: seq<string>)
    ensures Lines(a + b) == Lines(a) + Lines(b)
  {
    if a == [] {
      assert a + b == b;
    } else {
      LinesAppend(a[1..], b);
      assert (a + b)[1..] == a[1..] + b;
    }
  }

  // ---------- the first blank line ----------

  ghost predicate CleanLine(line: string) { line != "" && '\r' !in line }

  ghost predicate CleanLines(ls: seq<string>) {
    forall i :: 0 <= i < |ls| ==> CleanLine(ls[i])
  }

  /** All lines but without the line break after the last one. */
  function Joined(ls: seq<string>): string
    requires |ls| > 0
  {
    if |ls| == 1 then ls[0] else ls[0] + (CRLF + Joined(ls[1..]))
  }

  lemma {:induction false} JoinedIsLines(ls: seq<string>)
    requires |ls| > 0
    ensures Joined(ls) + CRLF == Lines(ls)
  {
    if |ls| == 1 {
      assert ls[1..] == [];
      assert Lines(ls) == (ls[0] + CRLF) + "";
    } else {
      JoinedIsLines(ls[1..]);
    }
  }

  lemma NoBlankLineIn(s: string, n: nat)
    requires n + 2 < |s| && '\r' !in s[..n] && s[n + 1] != '\r' && s[n + 2] != '\r'
    ensures NotWithin(s, BLANK_LINE, n + 2)
  {
    forall k | 0 <= k < n + 2 && k <= |s| ensures !(BLANK_LINE <= s[k..]) {
      if k < n {
        assert s[k] in s[..n];
        NotAt(s, BLANK_LINE, k, 0);
      } else if k == n {
        NotAt(s, BLANK_LINE, k, 2);
      } else {
        NotAt(s, BLANK_LINE, k, 0);
      }
    }
  }

  lemma SkipLineAt(line: string, next: string, rest: string)
    requires next != ""
    ensures var s, n := line + (CRLF + (next + rest)), |line|;
            s[..n] == line && n + 2 < |s| && s[n + 1] == '\n' && s[n + 2] == next[0] && s[n + 2..] == next + rest
  {}

  lemma SkipLine(line: string, next: string, rest: string)
    requires '\r' !in line && next != "" && next[0] != '\r' && IndexOf(next + rest, BLANK_LINE) >= 0
    ensures IndexOf(line + (CRLF + (next + rest)), BLANK_LINE) == |line| + 2 + IndexOf(next + rest, BLANK_LINE)
  {
    hide IndexOf, NotWithin;
    var s, n := line + (CRLF + (next + rest)), |line|;
    SkipLineAt(line, next, rest);
    NoBlankLineIn(s, n);
    IndexOfSkip(s, BLANK_LINE, n + 2);
  }

  lemma JoinedUnfold(ls: seq<string>)
    requires |ls| > 0
    ensures |ls| == 1 ==> Joined(ls) == ls[0]
    ensures |ls| > 1 ==> Joined(ls) == ls[0] + (CRLF + Joined(ls[1..]))
  {}

  lemma JoinedHead(ls: seq<string>)
    requires |ls| > 0 && CleanLines(ls)
    ensures Joined(ls) != "" && Joined(ls)[0] != '\r'
  {
    assert CleanLine(ls[0]);
  }

  /** The head ends exactly behind the last header line. */
  lemma {:induction false} FirstBlankLine(ls: seq<string>, payload: string)
    requires |ls| > 0 && CleanLines(ls)
    ensures IndexOf(Joined(ls) + (BLANK_LINE + payload), BLANK_LINE) == |Joined(ls)|
    decreases |ls|
  {
    var pat := BLANK_LINE;
    var tail := pat + payload;
    assert CleanLine(ls[0]);
    JoinedUnfold(ls);
    hide IndexOf, Joined;
    if |ls| == 1 {
      LineEnd(ls[0], pat, payload);
      Assoc(ls[0], pat, payload);
    } else {
      forall i | 0 <= i < |ls[1..]| ensures CleanLine(ls[1..][i]) { assert CleanLine(ls[i + 1]); }
      FirstBlankLine(ls[1..], payload);
      JoinedHead(ls[1..]);
      SkipLine(ls[0], Joined(ls[1..]), tail);
      Assoc(ls[0], CRLF + Joined(ls[1..]), tail);
      Assoc(CRLF, Joined(ls[1..]), tail);
    }
  }

  lemma TakeLine(line: string, rest: string)
    requires '\r' !in line
    ensures var block := line + (CRLF + rest);
            IndexOf(block, CRLF) == |line| && block[..|line|] == line && block[|line| + 2..] == rest
  {
    LineEnd(line, CRLF, rest);
    hide IndexOf;
    Assoc(line, CRLF, rest);
  }
}
