/**
  The inotify buffer of the file watcher: reads are appended at the end, records
  are popped at an offset, and the consumed front is dropped now and then.
 */
module Watch {
  import opened Wrappers

  newtype byte = x: int | 0 <= x < 256

  // ---------- records ----------

  /** What the watcher keeps of an inotify record. */
  datatype Record = Record(name: seq<byte>, mask: nat, status: int)

  const HEADER_SIZE: nat := 16
  const QUEUE_OVERFLOW: nat := 0x4000
  const ENOSPC: int := 28
  const COMPACT_AT: nat := 2048

  /** A 32-bit little-endian field. */
  function Word(s: seq<byte>, at: nat): nat
    requires at + 4 <= |s|
  {
    s[at] as nat + 0x100 * (s[at + 1] as nat) + 0x1_0000 * (s[at + 2] as nat) + 0x100_0000 * (s[at + 3] as nat)
  }

  function RecordSize(s: seq<byte>): nat
    requires |s| >= HEADER_SIZE
  {
    HEADER_SIZE + Word(s, 12)
  }

  /** The stream starts with a whole record. */
  predicate HasRecord(s: seq<byte>) { |s| >= HEADER_SIZE && |s| >= RecordSize(s) }

  /** The kernel pads names with NUL bytes. */
  function UpToNul(s: seq<byte>): seq<byte> {
    if s == [] || s[0] == 0 then [] else [s[0]] + UpToNul(s[1..])
  }

  function FirstRecord(s: seq<byte>): Record
    requires HasRecord(s)
  {
    var mask := Word(s, 4);
    Record(UpToNul(s[HEADER_SIZE..RecordSize(s)]), mask, if (mask / QUEUE_OVERFLOW) % 2 == 1 then ENOSPC else 0)
  }

  /** All whole records of a plain byte stream, in order. */
  function Records(s: seq<byte>): seq<Record>
    decreases |s|
  {
    if HasRecord(s) then [FirstRecord(s)] + Records(s[RecordSize(s)..]) else []
  }

  // ---------- the buffer ----------

  datatype Buffer = Buffer(pending: seq<byte>, offset: nat) {
    predicate Valid() { offset <= |pending| && offset <= COMPACT_AT }

    function Unread(): seq<byte>
      requires Valid()
    {
      pending[offset..]
    }
  }

  function Compact(pending: seq<byte>, offset: nat): Buffer
    requires offset <= |pending|
  {
    if offset >= |pending| then Buffer([], 0)
    else if offset > COMPACT_AT then Buffer(pending[offset..], 0)
    else Buffer(pending, offset)
  }

  function Pop(b: Buffer): (Option<Record>, Buffer)
    requires b.Valid()
  {
    if !HasRecord(b.Unread()) then (None, b)
    else (Some(FirstRecord(b.Unread())), Compact(b.pending, b.offset + RecordSize(b.Unread())))
  }

  function Append(b: Buffer, chunk: seq<byte>): Buffer { Buffer(b.pending + chunk, b.offset) }

  /** Popping takes one record off the unread bytes, and keeps the offset small. */
  lemma PopTakesOne(b: Buffer)
    requires b.Valid()
    ensures Pop(b).1.Valid()
    ensures var (e, b') := Pop(b);
            if HasRecord(b.Unread())
            then e == Some(FirstRecord(b.Unread())) && b'.Unread() == b.Unread()[RecordSize(b.Unread())..]
            else e == None && b' == b
  {
    var u := b.Unread();
    if HasRecord(u) {
      assert u[RecordSize(u)..] == b.pending[b.offset + RecordSize(u)..];
    }
  }

  /** `event` is the first record of the stream `all`, if it has a whole one, and `unread` the rest. */
  ghost predicate Served(all: seq<byte>, event: Option<Record>, unread: seq<byte>) {
    if HasRecord(all) then event == Some(FirstRecord(all)) && unread == all[RecordSize(all)..]
    else event == None && unread == all
  }

  class State {
    var pending: seq<byte>
    var pendingOffset: nat
    var running: bool

    constructor ()
      ensures pending == [] && pendingOffset == 0 && running
    {
      pending, pendingOffset, running := [], 0, true;
    }

    function Contents(): Buffer
      reads this
    {
      Buffer(pending, pendingOffset)
    }

    method TryPopPendingEvent() returns (event: Option<Record>)
      requires Contents().Valid()
      modifies this`pending, this`pendingOffset
      ensures (event, Contents()) == Pop(old(Contents())) && Contents().Valid()
      ensures Served(old(Contents().Unread()), event, Contents().Unread())
    {
      PopTakesOne(Contents());
      var available := |pending| - pendingOffset;
      if available < HEADER_SIZE {
        return None;
      }
      ghost var u := pending[pendingOffset..];
      var len := Word(pending, pendingOffset + 12);
      assert len == Word(u, 12);
      var size := HEADER_SIZE + len;
      if available < size {
        return None;
      }
      var mask := Word(pending, pendingOffset + 4);
      assert mask == Word(u, 4);
      assert pending[pendingOffset + HEADER_SIZE..pendingOffset + size] == u[HEADER_SIZE..size];
      var name := UpToNul(pending[pendingOffset + HEADER_SIZE..pendingOffset + size]);
      event := Some(Record(name, mask, if (mask / QUEUE_OVERFLOW) % 2 == 1 then ENOSPC else 0));
      pendingOffset := pendingOffset + size;
      if pendingOffset >= |pending| {
        pending, pendingOffset := [], 0;
      } else if pendingOffset > COMPACT_AT {
        pending, pendingOffset := pending[pendingOffset..], 0;
      }
    }

    method CloseAll()
      modifies this`running
      ensures !running
    {
      running := false;
    }

    /** `next` over the reads the descriptor will deliver, until it has an event, the
        watcher is closed during a read, or they run out. */
    method Next(deliveries: seq<Delivery>) returns (event: Option<Record>, used: nat)
      requires Contents().Valid()
      modifies this
      ensures Contents().Valid() && used <= |deliveries|
      ensures running == (old(running) && forall i :: 0 <= i < used ==> deliveries[i].running)
      ensures !old(running) ==> event == None && used == 0 && Contents() == old(Contents())
      ensures running ==>
                && Served(Total(old(Contents().Unread()), deliveries, used), event, Contents().Unread())
                && (event.None? ==> used == |deliveries|)
      ensures running && used > 0 && event.Some? ==>
                !HasRecord(Total(old(Contents().Unread()), deliveries, used - 1))
      ensures old(running) && !running ==>
                && used > 0 && !deliveries[used - 1].running && event == None
                && Contents().Unread() == Total(old(Contents().Unread()), deliveries, used - 1)
    {
      used := 0;
      event := None;
      if !running {
        return;
      }
      ghost var start := Contents().Unread();
      TotalOfNone(start, deliveries);
      hide Pop, HasRecord, FirstRecord, RecordSize, Served, Total;
      event := TryPopPendingEvent();
      while event.None? && used < |deliveries|
        invariant 0 <= used <= |deliveries| && Contents().Valid() && running
        invariant Served(Total(start, deliveries, used), event, Contents().Unread())
        invariant used > 0 ==> !HasRecord(Total(start, deliveries, used - 1))
        invariant forall i :: 0 <= i < used ==> deliveries[i].running
        decreases |deliveries| - used
      {
        ServedNothing(Total(start, deliveries, used), Contents().Unread());
        used := used + 1;
        if !deliveries[used - 1].running {
          CloseAll();
          return;
        }
        TotalOfNext(start, deliveries, used - 1);
        event := AppendAndPop(deliveries[used - 1].bytes);
      }
    }

    /** The locked section after a read. */
    method AppendAndPop(chunk: seq<byte>) returns (event: Option<Record>)
      requires Contents().Valid()
      modifies this`pending, this`pendingOffset
      ensures Contents().Valid() && Served(old(Contents().Unread()) + chunk, event, Contents().Unread())
    {
      AppendKeeps(Contents(), chunk);
      pending := pending + chunk;
      event := TryPopPendingEvent();
    }
  }

  /** What a read delivers, and whether the watcher is still running when the lock is taken again. */
  datatype Delivery = Delivery(bytes: seq<byte>, running: bool)

  function Bytes(ds: seq<Delivery>): seq<seq<byte>> {
    if ds == [] then [] else Bytes(ds[..|ds| - 1]) + [ds[|ds| - 1].bytes]
  }

  lemma ServedNothing(all: seq<byte>, unread: seq<byte>)
    requires Served(all, None, unread)
    ensures !HasRecord(all) && unread == all
  {
    hide HasRecord, FirstRecord;
  }

  function Concat(parts: seq<seq<byte>>): seq<byte> {
    if parts == [] then [] else Concat(parts[..|parts| - 1]) + parts[|parts| - 1]
  }

  /** What was unread at the start and what the first `n` reads delivered. */
  function Total(start: seq<byte>, ds: seq<Delivery>, n: nat): seq<byte>
    requires n <= |ds|
  {
    start + Concat(Bytes(ds[..n]))
  }

  lemma TotalOfNone(start: seq<byte>, ds: seq<Delivery>)
    ensures Total(start, ds, 0) == start
  {}

  lemma TotalOfNext(start: seq<byte>, ds: seq<Delivery>, n: nat)
    requires n < |ds|
    ensures Total(start, ds, n + 1) == Total(start, ds, n) + ds[n].bytes
  {
    assert ds[..n + 1][..n] == ds[..n];
    var b := Bytes(ds[..n + 1]);
    assert b[..|b| - 1] == Bytes(ds[..n]) && b[|b| - 1] == ds[n].bytes;
  }

  lemma AppendKeeps(b: Buffer, chunk: seq<byte>)
    requires b.Valid()
    ensures Append(b, chunk).Valid() && Append(b, chunk).Unread() == b.Unread() + chunk
  {}

  // ---------- any run of reads and pops ----------

  datatype Op = Read(chunk: seq<byte>) | Take

  /** A run: the buffer, the bytes of the records taken so far, and the records. */
  datatype Run = Run(buffer: Buffer, consumed: seq<byte>, taken: seq<Record>)

  function Initial(): Run { Run(Buffer([], 0), [], []) }

  function Step(r: Run, op: Op): Run
    requires r.buffer.Valid()
  {
    match op
    case Read(chunk) => r.(buffer := Append(r.buffer, chunk))
    case Take =>
      var (e, b) := Pop(r.buffer);
      match e
      case None => r
      case Some(record) =>
        Run(b, r.consumed + r.buffer.Unread()[..RecordSize(r.buffer.Unread())], r.taken + [record])
  }

  function Input(ops: seq<Op>): seq<byte> {
    if ops == [] then []
    else Input(ops[..|ops| - 1]) + match ops[|ops| - 1] { case Read(chunk) => chunk case Take => [] }
  }

  /** Records are cut out of the stream one after the other. */
  lemma {:induction false} RecordsStable(s: seq<byte>, t: seq<byte>)
    requires HasRecord(s)
    ensures HasRecord(s + t) && RecordSize(s + t) == RecordSize(s) && FirstRecord(s + t) == FirstRecord(s)
    ensures (s + t)[RecordSize(s)..] == s[RecordSize(s)..] + t
  {
    var n := RecordSize(s);
    assert Word(s + t, 4) == Word(s, 4) && Word(s + t, 12) == Word(s, 12);
    assert (s + t)[HEADER_SIZE..n] == s[HEADER_SIZE..n];
  }

  /** The consumed bytes are exactly the records taken. */
  ghost predicate Cut(consumed: seq<byte>, taken: seq<Record>)
    decreases |taken|
  {
    if taken == [] then consumed == []
    else HasRecord(consumed) && FirstRecord(consumed) == taken[0] && Cut(consumed[RecordSize(consumed)..], taken[1..])
  }

  lemma RecordsUnfold(s: seq<byte>)
    requires HasRecord(s)
    ensures Records(s) == [FirstRecord(s)] + Records(s[RecordSize(s)..])
  {}

  lemma CutUnfold(consumed: seq<byte>, taken: seq<Record>, rest: seq<byte>)
    requires Cut(consumed, taken) && taken != []
    ensures HasRecord(consumed) && RecordSize(consumed) <= |consumed| &&
        Cut(consumed[RecordSize(consumed)..], taken[1..])
    ensures Records(consumed + rest) == [taken[0]] + Records(consumed[RecordSize(consumed)..] + rest)
  {
    RecordsStable(consumed, rest);
    RecordsUnfold(consumed + rest);
    hide Records, FirstRecord;
  }

  lemma FirstAndRest(s: seq<Record>, t: seq<Record>)
    requires s != []
    ensures [s[0]] + (s[1..] + t) == s + t
  {}

  lemma {:induction false} CutRecords(consumed: seq<byte>, taken: seq<Record>, rest: seq<byte>)
    requires Cut(consumed, taken)
    ensures Records(consumed + rest) == taken + Records(rest)
    decreases |taken|
  {
    if taken == [] {
      assert consumed + rest == rest;
    } else {
      CutUnfold(consumed, taken, rest);
      var next := consumed[RecordSize(consumed)..];
      hide *;
      CutRecords(next, taken[1..], rest);
      FirstAndRest(taken, Records(rest));
    }
  }

  lemma {:induction false} CutAppend(consumed: seq<byte>, taken: seq<Record>, u: seq<byte>)
    requires Cut(consumed, taken) && HasRecord(u)
    ensures Cut(consumed + u[..RecordSize(u)], taken + [FirstRecord(u)])
    decreases |taken|
  {
    var piece := u[..RecordSize(u)];
    if taken == [] {
      assert Word(piece, 4) == Word(u, 4) && Word(piece, 12) == Word(u, 12);
      assert piece[HEADER_SIZE..RecordSize(u)] == u[HEADER_SIZE..RecordSize(u)];
      assert consumed + piece == piece && piece[RecordSize(u)..] == [];
    } else {
      RecordsStable(consumed, piece);
      CutAppend(consumed[RecordSize(consumed)..], taken[1..], u);
      assert (taken + [FirstRecord(u)])[1..] == taken[1..] + [FirstRecord(u)];
    }
  }

  ghost predicate Inv(r: Run, input: seq<byte>) {
    && r.buffer.Valid() && r.consumed + r.buffer.Unread() == input && Cut(r.consumed, r.taken)
  }

  lemma ReadKeeps(r: Run, input: seq<byte>, chunk: seq<byte>)
    requires Inv(r, input)
    ensures Inv(Step(r, Read(chunk)), input + chunk)
  {
    AppendKeeps(r.buffer, chunk);
    hide Cut;
  }

  lemma TakeKeeps(r: Run, input: seq<byte>)
    requires Inv(r, input)
    ensures Inv(Step(r, Take), input)
  {
    PopTakesOne(r.buffer);
    var u := r.buffer.Unread();
    if HasRecord(u) {
      CutAppend(r.consumed, r.taken, u);
      hide Cut, FirstRecord, Pop;
      assert u == u[..RecordSize(u)] + u[RecordSize(u)..];
    }
  }

  function After(ops: seq<Op>): (r: Run)
    ensures r.buffer.Valid()
  {
    if ops == [] then Initial()
    else
      var before := After(ops[..|ops| - 1]);
      PopTakesOne(before.buffer);
      Step(before, ops[|ops| - 1])
  }

  lemma {:induction false} RunInv(ops: seq<Op>)
    ensures Inv(After(ops), Input(ops))
  {
    if ops != [] {
      var before, last := ops[..|ops| - 1], ops[|ops| - 1];
      RunInv(before);
      hide Inv, Step;
      match last {
        case Read(chunk) => ReadKeeps(After(before), Input(before), chunk);
        case Take =>
          TakeKeeps(After(before), Input(before));
          assert Input(before) + [] == Input(before);
      }
    }
  }

  /** After any interleaving of reads and pops: the bytes of the popped records
      followed by the unread bytes are all bytes read, the popped records followed by
      those still to come are the records of the plain byte stream, and the offset is
      within bounds. */
  lemma BufferRefinesStream(ops: seq<Op>)
    ensures var r := After(ops);
            && r.buffer.offset <= COMPACT_AT
            && r.consumed + r.buffer.Unread() == Input(ops)
            && r.taken + Records(r.buffer.Unread()) == Records(Input(ops))
  {
    RunInv(ops);
    CutRecords(After(ops).consumed, After(ops).taken, After(ops).buffer.Unread());
    hide Records, Cut, Input, After;
  }

  ghost predicate Drained(r: Run) requires r.buffer.Valid() { !HasRecord(r.buffer.Unread()) }

  /** Once drained, the events depend on the total input only, not on how it was read. */
  lemma ReadSizesDoNotMatter(a: seq<Op>, b: seq<Op>)
    requires Input(a) == Input(b) && Drained(After(a)) && Drained(After(b))
    ensures After(a).taken == After(b).taken == Records(Input(a))
  {
    BufferRefinesStream(a);
    BufferRefinesStream(b);
    hide HasRecord, Input, After;
    assert After(a).taken + [] == After(a).taken && After(b).taken + [] == After(b).taken;
  }

  // ---------- records as the kernel writes them ----------

  /** A 32-bit field, least significant byte first. */
  function Bytes32(n: nat): (r: seq<byte>)
    ensures |r| == 4
  {
    [(n % 0x100) as byte, (n / 0x100 % 0x100) as byte, (n / 0x1_0000 % 0x100) as byte, (n / 0x100_0000 % 0x100) as byte]
  }

  function Zeros(n: nat): (r: seq<byte>)
    ensures |r| == n
  {
    seq(n, _ => 0)
  }

  /** An event: the mask is given by its overflow bit and the bits above and below it. */
  datatype Event = Event(watch: nat, above: nat, overflow: bool, below: nat, cookie: nat, name: seq<byte>, padding: nat)

  function Mask(e: Event): nat { e.above * 0x8000 + (if e.overflow then 0x4000 else 0) + e.below }

  predicate Writable(e: Event) {
    && e.below < 0x4000 && Mask(e) < 0x1_0000_0000 && |e.name| + e.padding < 0x1_0000_0000
    && (0 as byte) !in e.name
  }

  /** The layout of `struct inotify_event`, with the name padded by NUL bytes. */
  function Written(e: Event): seq<byte> {
    Bytes32(e.watch) + (Bytes32(Mask(e)) + (Bytes32(e.cookie) + (Bytes32(|e.name| + e.padding)
    + (e.name + Zeros(e.padding)))))
  }

  function Expected(e: Event): Record {
    Record(e.name, Mask(e), if e.overflow then 28 else 0)
  }

  lemma DigitsOfWord(n: nat)
    requires n < 0x1_0000_0000
    ensures n == n % 0x100 + 0x100 * (n / 0x100 % 0x100) + 0x1_0000 * (n / 0x1_0000 % 0x100)
                 + 0x100_0000 * (n / 0x100_0000 % 0x100)
  {
    var a := n / 0x100;
    var b := a / 0x100;
    var c := b / 0x100;
    assert n / 0x1_0000 == b && n / 0x100_0000 == c;
    assert c < 0x100;
  }

  lemma WordOf(s: seq<byte>, at: nat, n: nat)
    requires at + 4 <= |s| && n < 0x1_0000_0000 && s[at..at + 4] == Bytes32(n)
    ensures Word(s, at) == n
  {
    DigitsOfWord(n);
    var b := Bytes32(n);
    assert s[at] == s[at..at + 4][0] && s[at + 1] == s[at..at + 4][1];
    assert s[at + 2] == s[at..at + 4][2] && s[at + 3] == s[at..at + 4][3];
    assert b[0] as nat == n % 0x100 && b[1] as nat == n / 0x100 % 0x100;
    assert b[2] as nat == n / 0x1_0000 % 0x100 && b[3] as nat == n / 0x100_0000 % 0x100;
  }

  lemma {:induction false} NameEnds(name: seq<byte>, padding: nat)
    requires (0 as byte) !in name
    ensures UpToNul(name + Zeros(padding)) == name
  {
    if name == [] {
      assert name + Zeros(padding) == Zeros(padding);
    } else {
      assert (name + Zeros(padding))[1..] == name[1..] + Zeros(padding);
      NameEnds(name[1..], padding);
    }
  }

  lemma OverflowBit(e: Event)
    requires e.below < 0x4000
    ensures (Mask(e) / QUEUE_OVERFLOW) % 2 == if e.overflow then 1 else 0
  {
    var bit := if e.overflow then 1 else 0;
    assert Mask(e) == (e.above * 2 + bit) * 0x4000 + e.below;
    assert Mask(e) / 0x4000 == e.above * 2 + bit;
  }

  lemma Layout(e: Event)
    ensures var s := Written(e);
            && |s| == 16 + |e.name| + e.padding && s[4..8] == Bytes32(Mask(e))
            && s[12..16] == Bytes32(|e.name| + e.padding) && s[16..] == e.name + Zeros(e.padding)
  {
    hide Bytes32, Zeros, Mask;
  }

  lemma WrittenIsRead(e: Event)
    requires Writable(e)
    ensures HasRecord(Written(e)) && RecordSize(Written(e)) == |Written(e)| && FirstRecord(Written(e)) == Expected(e)
  {
    var s := Written(e);
    Layout(e);
    WordOf(s, 4, Mask(e));
    WordOf(s, 12, |e.name| + e.padding);
    NameEnds(e.name, e.padding);
    OverflowBit(e);
    assert s[HEADER_SIZE..|s|] == s[16..];
    hide Written, Bytes32, Zeros, Word, UpToNul, Mask;
  }

  function WrittenAll(es: seq<Event>): seq<byte> {
    if es == [] then [] else Written(es[0]) + WrittenAll(es[1..])
  }

  function ExpectedAll(es: seq<Event>): seq<Record> {
    if es == [] then [] else [Expected(es[0])] + ExpectedAll(es[1..])
  }

  /** Any sequence of events the kernel writes is read back, name, mask and status each. */
  lemma {:induction false} EventsAreRead(es: seq<Event>)
    requires forall i :: 0 <= i < |es| ==> Writable(es[i])
    ensures Records(WrittenAll(es)) == ExpectedAll(es)
    decreases |es|
  {
    if es != [] {
      var s, rest := Written(es[0]), WrittenAll(es[1..]);
      WrittenIsRead(es[0]);
      RecordsStable(s, rest);
      RecordsUnfold(s + rest);
      hide Written, Expected, Records, FirstRecord, HasRecord, RecordSize, Writable;
      assert s[|s|..] + rest == rest;
      EventsAreRead(es[1..]);
    }
  }
}
