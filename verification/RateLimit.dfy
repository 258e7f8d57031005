/**
  The rate limiter middleware: fixed windows per key, opened by the first request
  after the previous one expired, with expired entries purged along the way.
 */
module RateLimit {
  datatype Entry = Entry(count: nat, reset: int)

  type Store = map<string, Entry>

  datatype Config = Config(max: nat, window: int)

  // ---------- the specification ----------

  predicate Live(m: Store, key: string, now: int) { key in m && now < m[key].reset }

  function Purge(m: Store, now: int): Store { map k | k in m && now < m[k].reset :: m[k] }

  function TryConsume(c: Config, m: Store, key: string, now: int): (bool, Store) {
    var p := Purge(m, now);
    if !Live(p, key, now) then (true, p[key := Entry(1, now + c.window)])
    else if p[key].count >= c.max then (false, p)
    else (true, p[key := Entry(p[key].count + 1, p[key].reset)])
  }

  function Remaining(c: Config, m: Store, key: string, now: int): nat {
    if !Live(m, key, now) then c.max
    else if c.max <= m[key].count then 0
    else c.max - m[key].count
  }

  // ---------- the limiter ----------

  class RateLimiter {
    const options: Config
    var entries: Store

    constructor (options: Config)
      ensures this.options == options && entries == map[]
    {
      this.options := options;
      entries := map[];
    }

    /** The iteration visits the keys in some order; erasing does not disturb the others. */
    method CleanupExpired(now: int)
      modifies this`entries
      ensures entries == Purge(old(entries), now)
    {
      var todo := entries.Keys;
      while todo != {}
        invariant todo <= entries.Keys <= old(entries).Keys
        invariant forall k :: k in entries ==> entries[k] == old(entries)[k]
        invariant forall k :: k in old(entries) && k !in todo ==> (k in entries <==> now < old(entries)[k].reset)
        decreases todo
      {
        var k :| k in todo;
        if now >= entries[k].reset {
          entries := entries - {k};
        }
        todo := todo - {k};
      }
    }

    method Consume(key: string, now: int) returns (ok: bool)
      modifies this`entries
      ensures (ok, entries) == TryConsume(options, old(entries), key, now)
    {
      CleanupExpired(now);
      if key !in entries || now >= entries[key].reset {
        entries := entries[key := Entry(1, now + options.window)];
        return true;
      }
      if entries[key].count >= options.max {
        return false;
      }
      entries := entries[key := entries[key].(count := entries[key].count + 1)];
      return true;
    }

    method Left(key: string, now: int) returns (n: nat)
      ensures n == Remaining(options, entries, key, now)
    {
      if key !in entries {
        return options.max;
      }
      if now >= entries[key].reset {
        return options.max;
      }
      if options.max <= entries[key].count {
        return 0;
      }
      return options.max - entries[key].count;
    }
  }

  // ---------- runs ----------

  datatype Event = Request(key: string, at: int) | Look(key: string, at: int) | Cleanup(at: int)

  datatype Outcome = Admitted | Refused | Left(n: nat) | Cleaned

  /** The clock never runs backwards. */
  ghost predicate Monotone(from: int, events: seq<Event>)
    decreases |events|
  {
    events == [] || (from <= events[0].at && Monotone(events[0].at, events[1..]))
  }

  function Step(c: Config, m: Store, e: Event): (Outcome, Store) {
    match e
    case Request(key, at) => var (ok, m') := TryConsume(c, m, key, at); (if ok then Admitted else Refused, m')
    case Look(key, at) => (Left(Remaining(c, m, key, at)), m)
    case Cleanup(at) => (Cleaned, Purge(m, at))
  }

  function Run(c: Config, m: Store, events: seq<Event>): seq<Outcome>
    decreases |events|
  {
    if events == [] then []
    else var (o, m') := Step(c, m, events[0]); [o] + Run(c, m', events[1..])
  }

  // ---------- purging is invisible ----------

  /** A limiter that never erases anything. */
  function KeepingStep(c: Config, m: Store, e: Event): (Outcome, Store) {
    match e
    case Request(key, at) =>
      if !Live(m, key, at) then (Admitted, m[key := Entry(1, at + c.window)])
      else if m[key].count >= c.max then (Refused, m)
      else (Admitted, m[key := Entry(m[key].count + 1, m[key].reset)])
    case Look(key, at) => (Left(Remaining(c, m, key, at)), m)
    case Cleanup(_) => (Cleaned, m)
  }

  function KeepingRun(c: Config, m: Store, events: seq<Event>): seq<Outcome>
    decreases |events|
  {
    if events == [] then []
    else var (o, m') := KeepingStep(c, m, events[0]); [o] + KeepingRun(c, m', events[1..])
  }

  /** The two stores agree on every entry that is still live. */
  ghost predicate Agree(m: Store, n: Store, now: int) {
    forall k :: (Live(m, k, now) <==> Live(n, k, now)) && (Live(m, k, now) ==> m[k] == n[k])
  }

  lemma AgreeStep(c: Config, m: Store, n: Store, now: int, e: Event)
    requires Agree(m, n, now) && now <= e.at
    ensures Step(c, m, e).0 == KeepingStep(c, n, e).0
    ensures Agree(Step(c, m, e).1, KeepingStep(c, n, e).1, e.at)
  {
    assert Live(m, if e.Cleanup? then "" else e.key, now) <==> Live(n, if e.Cleanup? then "" else e.key, now);
    forall k ensures (Live(m, k, e.at) <==> Live(n, k, e.at)) && (Live(m, k, e.at) ==> m[k] == n[k]) {
      assert Live(m, k, now) <==> Live(n, k, now);
    }
  }

  /** Erasing expired entries, at requests and at arbitrary other moments, changes
      no decision and no remaining count, whatever the clock does as long as it does
      not run backwards. */
  lemma {:induction false} PurgingChangesNothing(c: Config, m: Store, n: Store, now: int, events: seq<Event>)
    requires Agree(m, n, now) && Monotone(now, events)
    ensures Run(c, m, events) == KeepingRun(c, n, events)
    decreases |events|
  {
    if events != [] {
      AgreeStep(c, m, n, now, events[0]);
      var (o, m') := Step(c, m, events[0]);
      var (o', n') := KeepingStep(c, n, events[0]);
      PurgingChangesNothing(c, m', n', events[0].at, events[1..]);
    }
  }

  function WithoutCleanups(events: seq<Event>): seq<Event> {
    if events == [] then []
    else (if events[0].Cleanup? then [] else [events[0]]) + WithoutCleanups(events[1..])
  }

  function Answers(outcomes: seq<Outcome>): seq<Outcome> {
    if outcomes == [] then []
    else (if outcomes[0].Cleaned? then [] else [outcomes[0]]) + Answers(outcomes[1..])
  }

  lemma {:induction false} KeepingIgnoresCleanups(c: Config, n: Store, events: seq<Event>)
    ensures Answers(KeepingRun(c, n, events)) == KeepingRun(c, n, WithoutCleanups(events))
    decreases |events|
  {
    if events != [] {
      var (o, n') := KeepingStep(c, n, events[0]);
      KeepingIgnoresCleanups(c, n', events[1..]);
      assert ([o] + KeepingRun(c, n', events[1..]))[1..] == KeepingRun(c, n', events[1..]);
      if events[0].Cleanup? {
        assert WithoutCleanups(events) == WithoutCleanups(events[1..]);
      } else {
        assert WithoutCleanups(events)[1..] == WithoutCleanups(events[1..]);
      }
    }
  }

  lemma {:induction false} MonotoneWithout(from: int, to: int, events: seq<Event>)
    requires Monotone(from, events) && to <= from
    ensures Monotone(to, WithoutCleanups(events))
    decreases |events|
  {
    if events != [] {
      if events[0].Cleanup? {
        MonotoneWithout(events[0].at, to, events[1..]);
        assert WithoutCleanups(events) == WithoutCleanups(events[1..]);
      } else {
        MonotoneWithout(events[0].at, events[0].at, events[1..]);
        assert WithoutCleanups(events)[1..] == WithoutCleanups(events[1..]);
      }
    }
  }

  /** Leaving out every call to `cleanup` gives the same answers. */
  lemma CleanupsAreInvisible(c: Config, m: Store, now: int, events: seq<Event>)
    requires Monotone(now, events)
    ensures Answers(Run(c, m, events)) == Run(c, m, WithoutCleanups(events))
  {
    PurgingChangesNothing(c, m, m, now, events);
    KeepingIgnoresCleanups(c, m, events);
    MonotoneWithout(now, now, events);
    PurgingChangesNothing(c, m, m, now, WithoutCleanups(events));
  }

  // ---------- how many requests get through ----------

  /** The times at which requests for `key` were admitted. */
  function AdmittedTimes(c: Config, m: Store, events: seq<Event>, key: string): seq<int>
    decreases |events|
  {
    if events == [] then []
    else
      var (o, m') := Step(c, m, events[0]);
      (if o.Admitted? && events[0].key == key then [events[0].at] else []) + AdmittedTimes(c, m', events[1..], key)
  }

  /** A fixed window: when it was opened and the requests it admitted. */
  datatype Window = Window(start: int, times: seq<int>)

  function Bound(c: Config): nat { if c.max == 0 then 1 else c.max }

  ghost predicate GoodWindow(c: Config, w: Window) {
    && 1 <= |w.times| <= Bound(c) && w.times[0] == w.start
    && forall i :: 0 <= i < |w.times| ==>
        w.start <= w.times[i] && (w.times[i] == w.start || w.times[i] < w.start + c.window)
  }

  /** Windows are opened no earlier than the end of the one before. */
  ghost predicate GoodWindows(c: Config, ws: seq<Window>) {
    && (forall i :: 0 <= i < |ws| ==> GoodWindow(c, ws[i]))
    && (forall i :: 0 < i < |ws| ==> ws[i - 1].start <= ws[i].start && ws[i - 1].start + c.window <= ws[i].start)
  }

  function Extend(ws: seq<Window>, opens: bool, at: int): seq<Window> {
    if opens || ws == [] then ws + [Window(at, [at])]
    else ws[..|ws| - 1] + [Window(ws[|ws| - 1].start, ws[|ws| - 1].times + [at])]
  }

  /** The windows of `key` after a run that starts with the windows `ws`. */
  function Windows(c: Config, m: Store, ws: seq<Window>, events: seq<Event>, key: string): seq<Window>
    decreases |events|
  {
    if events == [] then ws
    else
      Windows(c, Step(c, m, events[0]).1, Record(c, m, ws, key, events[0]), events[1..], key)
  }

  function Record(c: Config, m: Store, ws: seq<Window>, key: string, e: Event): seq<Window> {
    if Hit(c, m, key, e) then Extend(ws, !Live(m, key, e.at), e.at) else ws
  }

  predicate Hit(c: Config, m: Store, key: string, e: Event) {
    Step(c, m, e).0.Admitted? && e.key == key
  }

  function Flat(ws: seq<Window>): seq<int> {
    if ws == [] then [] else Flat(ws[..|ws| - 1]) + ws[|ws| - 1].times
  }

  /** The entry of `key` describes the last window, as long as that has not expired. */
  ghost predicate Tracks(c: Config, m: Store, ws: seq<Window>, key: string, now: int) {
    && GoodWindows(c, ws)
    && (ws != [] ==> ws[|ws| - 1].start <= now)
    && (Live(m, key, now) ==>
          ws != [] && m[key] == Entry(|ws[|ws| - 1].times|, ws[|ws| - 1].start + c.window))
    && (!Live(m, key, now) && ws != [] ==> ws[|ws| - 1].start + c.window <= now)
  }

  lemma ExtendGood(c: Config, ws: seq<Window>, opens: bool, at: int)
    requires GoodWindows(c, ws)
    requires opens ==> ws == [] || (ws[|ws| - 1].start <= at && ws[|ws| - 1].start + c.window <= at)
    requires !opens ==>
        ws != [] && ws[|ws| - 1].start <= at < ws[|ws| - 1].start + c.window && |ws[|ws| - 1].times| < Bound(c)
    ensures GoodWindows(c, Extend(ws, opens, at))
  {
    var us := Extend(ws, opens, at);
    assert GoodWindow(c, us[|us| - 1]);
    hide GoodWindow;
  }

  lemma ExtendFlat(ws: seq<Window>, opens: bool, at: int)
    ensures Flat(Extend(ws, opens, at)) == Flat(ws) + [at]
  {
    var us := Extend(ws, opens, at);
    if opens || ws == [] {
      assert us[..|us| - 1] == ws;
    } else {
      assert us[..|us| - 1] == ws[..|ws| - 1];
    }
  }

  /** The entry of `key` after any step. */
  lemma EntryAfter(c: Config, m: Store, key: string, e: Event)
    ensures var m' := Step(c, m, e).1;
            && (Hit(c, m, key, e) && !Live(m, key, e.at) ==> key in m' && m'[key] == Entry(1, e.at + c.window))
            && (Hit(c, m, key, e) && Live(m, key, e.at) ==>
                  m[key].count < c.max && key in m' && m'[key] == Entry(m[key].count + 1, m[key].reset))
            && (!Hit(c, m, key, e) ==> (Live(m', key, e.at) <==> Live(m, key, e.at)))
            && (!Hit(c, m, key, e) && Live(m, key, e.at) ==> m'[key] == m[key])
  {}

  lemma TracksStep(c: Config, m: Store, ws: seq<Window>, key: string, now: int, e: Event)
    requires Tracks(c, m, ws, key, now) && now <= e.at
    ensures Tracks(c, Step(c, m, e).1, Record(c, m, ws, key, e), key, e.at)
  {
    EntryAfter(c, m, key, e);
    hide Step, Hit, GoodWindows;
    if Hit(c, m, key, e) {
      ExtendGood(c, ws, !Live(m, key, e.at), e.at);
    }
  }

  lemma RecordFlat(c: Config, m: Store, ws: seq<Window>, key: string, e: Event)
    ensures Flat(Record(c, m, ws, key, e)) == Flat(ws) + if Hit(c, m, key, e) then [e.at] else []
  {
    ExtendFlat(ws, !Live(m, key, e.at), e.at);
    hide Flat, Hit, Extend;
  }

  lemma AdmittedUnfold(c: Config, m: Store, events: seq<Event>, key: string)
    requires events != []
    ensures AdmittedTimes(c, m, events, key)
         == (if Hit(c, m, key, events[0]) then [events[0].at] else [])
            + AdmittedTimes(c, Step(c, m, events[0]).1, events[1..], key)
  {
    hide Step;
  }

  lemma {:induction false} WindowsAreGood(c: Config, m: Store, ws: seq<Window>, events: seq<Event>, key: string,
      now: int)
    requires Tracks(c, m, ws, key, now) && Monotone(now, events)
    ensures GoodWindows(c, Windows(c, m, ws, events, key))
    ensures Flat(Windows(c, m, ws, events, key)) == Flat(ws) + AdmittedTimes(c, m, events, key)
    decreases |events|
  {
    if events == [] {
      assert Flat(ws) + [] == Flat(ws);
      hide Flat, GoodWindow;
    } else {
      assert now <= events[0].at && Monotone(events[0].at, events[1..]);
      hide *;
      var m', ws' := Step(c, m, events[0]).1, Record(c, m, ws, key, events[0]);
      TracksStep(c, m, ws, key, now, events[0]);
      WindowsAreGood(c, m', ws', events[1..], key, events[0].at);
      WindowsUnfold(c, m, ws, events, key);
      FlatUnfold(c, m, ws, events, key);
    }
  }

  lemma FlatUnfold(c: Config, m: Store, ws: seq<Window>, events: seq<Event>, key: string)
    requires events != []
    ensures Flat(Record(c, m, ws, key, events[0])) + AdmittedTimes(c, Step(c, m, events[0]).1, events[1..], key)
         == Flat(ws) + AdmittedTimes(c, m, events, key)
  {
    RecordFlat(c, m, ws, key, events[0]);
    AdmittedUnfold(c, m, events, key);
    hide *;
  }

  lemma WindowsUnfold(c: Config, m: Store, ws: seq<Window>, events: seq<Event>, key: string)
    requires events != []
    ensures Windows(c, m, ws, events, key)
         == Windows(c, Step(c, m, events[0]).1, Record(c, m, ws, key, events[0]), events[1..], key)
  {
    hide Step, Record;
  }

  /** From the start, the admitted requests of a key fall into fixed windows of at
      most `max(1, max_requests)` each. */
  lemma FixedWindows(c: Config, events: seq<Event>, key: string, now: int)
    requires Monotone(now, events)
    ensures var ws := Windows(c, map[], [], events, key);
            GoodWindows(c, ws) && Flat(ws) == AdmittedTimes(c, map[], events, key)
  {
    WindowsAreGood(c, map[], [], events, key, now);
    assert [] + AdmittedTimes(c, map[], events, key) == AdmittedTimes(c, map[], events, key);
  }

  // ---------- bursts ----------

  /** How many of the times lie in `[a, b)`. */
  function CountIn(times: seq<int>, a: int, b: int): nat {
    if times == [] then 0
    else CountIn(times[..|times| - 1], a, b) + if a <= times[|times| - 1] < b then 1 else 0
  }

  lemma {:induction false} CountAppend(s: seq<int>, t: seq<int>, a: int, b: int)
    ensures CountIn(s + t, a, b) == CountIn(s, a, b) + CountIn(t, a, b)
  {
    if t == [] {
      assert s + t == s;
    } else {
      assert (s + t)[..|s + t| - 1] == s + t[..|t| - 1];
      CountAppend(s, t[..|t| - 1], a, b);
    }
  }

  lemma {:induction false} CountNone(times: seq<int>, a: int, b: int)
    requires forall i :: 0 <= i < |times| ==> !(a <= times[i] < b)
    ensures CountIn(times, a, b) == 0
  {
    if times != [] { CountNone(times[..|times| - 1], a, b); }
  }

  lemma {:induction false} CountAtMost(times: seq<int>, a: int, b: int)
    ensures CountIn(times, a, b) <= |times|
  {
    if times != [] { CountAtMost(times[..|times| - 1], a, b); }
  }

  lemma {:induction false} StartsGrow(c: Config, ws: seq<Window>, i: nat, j: nat)
    requires GoodWindows(c, ws) && i < j < |ws|
    ensures ws[i].start <= ws[j].start && ws[i].start + c.window <= ws[j].start
    decreases j
  {
    if i < j - 1 { StartsGrow(c, ws, i, j - 1); }
  }

  /** Windows that end before `a` add nothing. */
  lemma {:induction false} OldWindows(c: Config, ws: seq<Window>, a: int, b: int)
    requires c.window > 0 && GoodWindows(c, ws) && (ws != [] ==> ws[|ws| - 1].start + c.window <= a)
    ensures CountIn(Flat(ws), a, b) == 0
    decreases |ws|
  {
    if ws != [] {
      var w, rest := ws[|ws| - 1], ws[..|ws| - 1];
      assert GoodWindow(c, w);
      CountAppend(Flat(rest), w.times, a, b);
      CountNone(w.times, a, b);
      OldWindows(c, rest, a, b);
    }
  }

  /** Windows that do not start inside `[a, b)` leave at most one to count. */
  lemma {:induction false} BeforeStart(c: Config, ws: seq<Window>, a: int, b: int)
    requires c.window > 0 && GoodWindows(c, ws) && (ws != [] ==> ws[|ws| - 1].start <= a)
    ensures CountIn(Flat(ws), a, b) <= Bound(c)
  {
    if ws != [] {
      var w, rest := ws[|ws| - 1], ws[..|ws| - 1];
      assert GoodWindow(c, w);
      CountAppend(Flat(rest), w.times, a, b);
      CountAtMost(w.times, a, b);
      OldWindows(c, rest, a, b);
    }
  }

  lemma {:induction false} TwoWindows(c: Config, ws: seq<Window>, a: int)
    requires c.window > 0 && GoodWindows(c, ws)
    ensures CountIn(Flat(ws), a, a + c.window) <= 2 * Bound(c)
    decreases |ws|
  {
    if ws != [] {
      var b := a + c.window;
      var w, rest := ws[|ws| - 1], ws[..|ws| - 1];
      assert GoodWindow(c, w);
      CountAppend(Flat(rest), w.times, a, b);
      CountAtMost(w.times, a, b);
      if w.start >= b {
        CountNone(w.times, a, b);
        TwoWindows(c, rest, a);
      } else {
        BeforeStart(c, rest, a, b);
      }
    }
  }

  lemma {:induction false} EmptyInterval(times: seq<int>, a: int, b: int)
    requires b <= a
    ensures CountIn(times, a, b) == 0
  {
    CountNone(times, a, b);
  }

  /** Any half-open interval as long as the window admits at most twice the limit. */
  lemma BurstsAreBounded(c: Config, events: seq<Event>, key: string, now: int, a: int)
    requires Monotone(now, events)
    ensures CountIn(AdmittedTimes(c, map[], events, key), a, a + c.window) <= 2 * Bound(c)
  {
    if c.window <= 0 {
      EmptyInterval(AdmittedTimes(c, map[], events, key), a, a + c.window);
    } else {
      FixedWindows(c, events, key, now);
      TwoWindows(c, Windows(c, map[], [], events, key), a);
    }
  }

  // ---------- what `remaining` promises ----------

  /** How many of `n` requests at one moment get through. */
  function BurstAt(c: Config, m: Store, key: string, now: int, n: nat): nat
    decreases n
  {
    if n == 0 then 0
    else var (ok, m') := TryConsume(c, m, key, now); (if ok then 1 else 0) + BurstAt(c, m', key, now, n - 1)
  }

  function Min(a: nat, b: nat): nat { if a < b then a else b }

  /** A live entry: exactly the remaining requests get through. */
  lemma {:induction false} LiveBurst(c: Config, m: Store, key: string, now: int, n: nat)
    requires Live(m, key, now)
    ensures BurstAt(c, m, key, now, n) == Min(n, Remaining(c, m, key, now))
    decreases n
  {
    if n > 0 {
      var (ok, m') := TryConsume(c, m, key, now);
      assert Live(m', key, now);
      LiveBurst(c, m', key, now, n - 1);
    }
  }

  /** A window that is over as soon as it opens admits everything. */
  lemma {:induction false} EmptyWindowBurst(c: Config, m: Store, key: string, now: int, n: nat)
    requires c.window <= 0 && !Live(m, key, now)
    ensures BurstAt(c, m, key, now, n) == n
    decreases n
  {
    if n > 0 {
      var (ok, m') := TryConsume(c, m, key, now);
      assert !Live(m', key, now);
      EmptyWindowBurst(c, m', key, now, n - 1);
    }
  }

  lemma FreshBurst(c: Config, m: Store, key: string, now: int, n: nat)
    requires !Live(m, key, now) && c.window > 0
    ensures BurstAt(c, m, key, now, n) == Min(n, Bound(c))
  {
    if n > 0 {
      var (ok, m') := TryConsume(c, m, key, now);
      assert Live(m', key, now);
      LiveBurst(c, m', key, now, n - 1);
    }
  }

  /** `remaining` predicts the number of requests that will still get through, for
      every burst, exactly when a window is open, or the limit and the window length are
      positive.  Without an open window a limit of zero still lets one request
      through, and a window of no length lets all through. */
  lemma RemainingPredicts(c: Config, m: Store, key: string, now: int)
    ensures (forall n: nat :: BurstAt(c, m, key, now, n) == Min(n, Remaining(c, m, key, now)))
            <==> Live(m, key, now) || (c.max > 0 && c.window > 0)
  {
    if Live(m, key, now) {
      forall n: nat ensures BurstAt(c, m, key, now, n) == Min(n, Remaining(c, m, key, now)) {
        LiveBurst(c, m, key, now, n);
      }
    } else if c.window <= 0 {
      EmptyWindowBurst(c, m, key, now, c.max + 1);
      assert BurstAt(c, m, key, now, c.max + 1) != Min(c.max + 1, Remaining(c, m, key, now));
    } else {
      forall n: nat ensures BurstAt(c, m, key, now, n) == Min(n, Bound(c)) { FreshBurst(c, m, key, now, n); }
      if c.max == 0 {
        assert BurstAt(c, m, key, now, 1) != Min(1, Remaining(c, m, key, now));
      }
    }
  }

  // ---------- who is refused ----------

  function After(c: Config, m: Store, events: seq<Event>): Store
    decreases |events|
  {
    if events == [] then m else After(c, Step(c, m, events[0]).1, events[1..])
  }

  function LastTime(from: int, events: seq<Event>): int
    decreases |events|
  {
    if events == [] then from else LastTime(events[0].at, events[1..])
  }

  lemma {:induction false} TracksRun(c: Config, m: Store, ws: seq<Window>, events: seq<Event>, key: string, now: int)
    requires Tracks(c, m, ws, key, now) && Monotone(now, events)
    ensures Tracks(c, After(c, m, events), Windows(c, m, ws, events, key), key, LastTime(now, events))
    decreases |events|
  {
    if events != [] {
      var e := events[0];
      assert now <= e.at && Monotone(e.at, events[1..]);
      TracksStep(c, m, ws, key, now, e);
      WindowsUnfold(c, m, ws, events, key);
      hide Tracks, Step, Record, Windows;
      TracksRun(c, Step(c, m, e).1, Record(c, m, ws, key, e), events[1..], key, e.at);
    }
  }

  /** Exactly who is refused, over any history under a monotone clock: a request that
      comes while the last window of its key is still running and already holds
      max(1, limit) requests.  Everybody else is admitted. */
  lemma RefusedExactly(c: Config, events: seq<Event>, key: string, from: int, at: int)
    requires Monotone(from, events) && LastTime(from, events) <= at
    ensures var ws := Windows(c, map[], [], events, key);
            Step(c, After(c, map[], events), Request(key, at)).0 ==
              if ws != [] && at < ws[|ws| - 1].start + c.window && |ws[|ws| - 1].times| >= Bound(c)
              then Refused else Admitted
  {
    TracksRun(c, map[], [], events, key, from);
    var ws := Windows(c, map[], [], events, key);
    if ws != [] { assert GoodWindow(c, ws[|ws| - 1]); }
  }
}
