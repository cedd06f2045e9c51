/**
 The message bus between the two cores, one direction: a byte ring with wrapping 32-bit counters, a
 notification FIFO, and the consumer's one-deep peek cache. Each step below is one shared access of
 one core, so a list of steps is an interleaving of the two.
 */
module IcRing {
  import opened Bytes

  const SIZE: nat := 32768
  const FIFO_SLOTS: nat := 8
  const HEADER: nat := 4

  function Align(n: nat): nat { (n + 3) / 4 * 4 }

  datatype Msg = Msg(typ: u16, payload: seq<byte>)

  function Need(m: Msg): nat { HEADER + Align(|m.payload|) }

  /** Messages the length field can describe and the ring can hold. */
  predicate Sendable(m: Msg) { |m.payload| < 0x1_0000 && Need(m) <= SIZE }

  function Half(v: u16): seq<byte> { [v % 256, v / 256] }

  function UnHalf(lo: byte, hi: byte): u16 {
    var h: int := hi;
    h * 256 + lo
  }

  /** What a message occupies in the ring, its padding aside: type and length, little-endian, then the payload. */
  function Frame(m: Msg): (f: seq<byte>)
    requires |m.payload| < 0x1_0000
    ensures |f| == HEADER + |m.payload|
  {
    Half(m.typ) + Half(|m.payload|) + m.payload
  }

  /** A FIFO notification. */
  datatype Entry = Entry(typ: u16, off: nat)

  datatype Producer =
    | Idle
    | Checking(msg: Msg)
    | Writing(msg: Msg, done: nat)
    | Notifying(entry: Entry)

  /** What a receive returned: type, advertised length, and the bytes that fitted the caller's buffer. */
  datatype Receipt = Receipt(typ: u16, length: nat, max: nat, bytes: seq<byte>)

  datatype Consumer =
    | Waiting
    | ReadingHeader(entry: Entry, max: nat, header: seq<byte>)
    | Copying(entry: Entry, typ: u16, length: nat, max: nat, bytes: seq<byte>)

  /** Shared memory, the two cores' positions, and the logs of what was sent, received and refused. */
  datatype Link = Link(
    buf: seq<byte>, head: u32, tail: u32, fifo: seq<Entry>, cache: Option<Entry>,
    prod: Producer, cons: Consumer,
    sent: seq<Msg>, got: seq<Receipt>, mismatches: nat)

  datatype Step =
    | Send(msg: Msg)
    | Check
    | Write
    | Notify
    | Peek
    | Receive(max: nat)
    | Read

  function Free(l: Link): u32 {
    (SIZE - (l.head - l.tail) % 0x1_0000_0000) % 0x1_0000_0000
  }

  /** Bytes a send could take without blocking; a full FIFO counts as none. */
  function Avail(l: Link): nat {
    if |l.fifo| >= FIFO_SLOTS then 0 else Free(l)
  }

  function Slot(at: nat): nat { at % SIZE }

  function AddU32(a: u32, n: nat): u32 { (a + n) % 0x1_0000_0000 }

  function ProducerStep(l: Link, s: Step): Link
    requires |l.buf| == SIZE
  {
    match (l.prod, s)
    case (Idle, Send(m)) =>
      if Sendable(m) then l.(prod := Checking(m), sent := l.sent + [m]) else l
    case (Checking(m), Check) =>
      if Free(l) >= Need(m) then l.(prod := Writing(m, 0)) else l
    case (Writing(m, i), Write) =>
      if |m.payload| < 0x1_0000 && i < HEADER + |m.payload| then
        l.(buf := l.buf[Slot(Slot(l.head) + i) := Frame(m)[i]], prod := Writing(m, i + 1))
      else
        l.(head := AddU32(l.head, Need(m)), prod := Notifying(Entry(m.typ, Slot(l.head))))
    case (Notifying(e), Notify) =>
      if |l.fifo| < FIFO_SLOTS then l.(fifo := l.fifo + [e], prod := Idle) else l
    case _ => l
  }

  function TakeEntry(l: Link): Option<(Entry, Link)> {
    if l.cache.Some? then Some((l.cache.value, l.(cache := None)))
    else if l.fifo != [] then Some((l.fifo[0], l.(fifo := l.fifo[1..])))
    else None
  }

  function Min(a: nat, b: nat): nat { if a < b then a else b }

  function ConsumerStep(l: Link, s: Step): Link
    requires |l.buf| == SIZE
  {
    match (l.cons, s)
    case (Waiting, Peek) =>
      if l.cache.None? && l.fifo != [] then l.(cache := Some(l.fifo[0]), fifo := l.fifo[1..]) else l
    case (Waiting, Receive(max)) =>
      (match TakeEntry(l)
       case None => l
       case Some((e, l1)) => l1.(cons := ReadingHeader(e, max, [])))
    case (ReadingHeader(e, max, h), Read) =>
      if |h| < HEADER then l.(cons := ReadingHeader(e, max, h + [l.buf[Slot(e.off + |h|)]]))
      else if UnHalf(h[0], h[1]) != e.typ then l.(cons := Waiting, mismatches := l.mismatches + 1)
      else l.(cons := Copying(e, e.typ, UnHalf(h[2], h[3]), max, []))
    case (Copying(e, t, len, max, bs), Read) =>
      if |bs| < Min(len, max) then
        l.(cons := Copying(e, t, len, max, bs + [l.buf[Slot(e.off + HEADER + |bs|)]]))
      else
        l.(tail := AddU32(l.tail, HEADER + Align(len)), cons := Waiting, got := l.got + [Receipt(t, len, max, bs)])
    case _ => l
  }

  function Next(l: Link, s: Step): (r: Link)
    requires |l.buf| == SIZE
    ensures |r.buf| == SIZE
  {
    match s
    case Send(_) => ProducerStep(l, s)
    case Check => ProducerStep(l, s)
    case Write => ProducerStep(l, s)
    case Notify => ProducerStep(l, s)
    case _ => ConsumerStep(l, s)
  }

  function Start(buf: seq<byte>): Link {
    Link(buf, 0, 0, [], None, Idle, Waiting, [], [], 0)
  }

  function Run(l: Link, steps: seq<Step>): (r: Link)
    requires |l.buf| == SIZE
    ensures |r.buf| == SIZE
    decreases |steps|
  {
    if steps == [] then l else Next(Run(l, steps[..|steps| - 1]), steps[|steps| - 1])
  }

  // ---- The invariant ----

  /** Ring position of the `k`-th message, counted without wrapping. */
  function Pos(sent: seq<Msg>, k: nat): nat
    requires k <= |sent|
  {
    if k == 0 then 0 else Pos(sent, k - 1) + Need(sent[k - 1])
  }

  /** Messages whose bytes are published. */
  function Published(l: Link): int {
    if l.prod.Checking? || l.prod.Writing? then |l.sent| - 1 else |l.sent|
  }

  /** Notifications under way, oldest first: in the consumer's hands, peeked, queued, about to be queued. */
  function InFlight(l: Link): seq<Entry> {
    (if l.cons.Waiting? then [] else [l.cons.entry])
    + (if l.cache.None? then [] else [l.cache.value])
    + l.fifo
    + (if l.prod.Notifying? then [l.prod.entry] else [])
  }

  function EntryOf(sent: seq<Msg>, k: nat): Entry
    requires k < |sent|
  {
    Entry(sent[k].typ, Slot(Pos(sent, k)))
  }

  /** The ring holds `bytes` from unwrapped position `at` on. */
  predicate Holds(buf: seq<byte>, at: nat, bytes: seq<byte>)
    requires |buf| == SIZE
  {
    forall i :: 0 <= i < |bytes| ==> buf[Slot(at + i)] == bytes[i]
  }

  predicate Delivered(r: Receipt, m: Msg) {
    r.typ == m.typ && r.length == |m.payload| && r.bytes == m.payload[..Min(|m.payload|, r.max)]
  }

  ghost predicate Shape(l: Link) {
    && |l.buf| == SIZE && |l.got| <= Published(l) <= |l.sent|
    && |l.fifo| <= FIFO_SLOTS && l.mismatches == 0
    && forall k :: 0 <= k < |l.sent| ==> Sendable(l.sent[k])
  }

  ghost predicate Counters(l: Link)
    requires Shape(l)
  {
    && l.head == Pos(l.sent, Published(l)) % 0x1_0000_0000
    && l.tail == Pos(l.sent, |l.got|) % 0x1_0000_0000
    && Pos(l.sent, Published(l)) - Pos(l.sent, |l.got|) <= SIZE
  }

  ghost predicate Notices(l: Link)
    requires Shape(l)
  {
    && |InFlight(l)| == Published(l) - |l.got|
    && forall k :: 0 <= k < |InFlight(l)| ==> InFlight(l)[k] == EntryOf(l.sent, |l.got| + k)
  }

  ghost predicate Contents(l: Link)
    requires Shape(l)
  {
    forall k :: |l.got| <= k < Published(l) ==> Holds(l.buf, Pos(l.sent, k), Frame(l.sent[k]))
  }

  ghost predicate ProducerOk(l: Link)
    requires Shape(l)
  {
    match l.prod
    case Checking(m) => l.sent != [] && m == l.sent[|l.sent| - 1]
    case Writing(m, i) =>
      && l.sent != [] && m == l.sent[|l.sent| - 1] && i <= HEADER + |m.payload|
      && Pos(l.sent, Published(l)) + Need(m) - Pos(l.sent, |l.got|) <= SIZE
      && Holds(l.buf, Pos(l.sent, Published(l)), Frame(m)[..i])
    case _ => true
  }

  ghost predicate ConsumerOk(l: Link)
    requires Shape(l)
  {
    match l.cons
    case Waiting => true
    case ReadingHeader(e, max, h) =>
      |l.got| < Published(l) && |h| <= HEADER && h == Frame(l.sent[|l.got|])[..|h|]
    case Copying(e, t, len, max, bs) =>
      && |l.got| < Published(l)
      && var m := l.sent[|l.got|];
      t == m.typ && len == |m.payload| && |bs| <= Min(len, max) && bs == m.payload[..|bs|]
  }

  ghost predicate Log(l: Link)
    requires Shape(l)
  {
    forall k :: 0 <= k < |l.got| ==> Delivered(l.got[k], l.sent[k])
  }

  ghost predicate Inv(l: Link) {
    Shape(l) && Counters(l) && Notices(l) && Contents(l) && ProducerOk(l) && ConsumerOk(l) && Log(l)
  }

  // ---- The invariant is inductive ----

  lemma {:induction false} PosGrows(sent: seq<Msg>, a: nat, b: nat)
    requires a <= b <= |sent|
    ensures Pos(sent, a) <= Pos(sent, b)
    ensures a < b ==> Pos(sent, a) + Need(sent[a]) <= Pos(sent, b)
    decreases b
  {
    if a < b { PosGrows(sent, a, b - 1); }
  }

  lemma {:induction false} PosAppend(sent: seq<Msg>, m: Msg, k: nat)
    requires k <= |sent|
    ensures Pos(sent + [m], k) == Pos(sent, k)
  {
    if k > 0 { PosAppend(sent, m, k - 1); }
  }

  lemma FrameFits(m: Msg)
    requires |m.payload| < 0x1_0000
    ensures |Frame(m)| <= Need(m)
  {
  }

  lemma FrameReads(m: Msg)
    requires |m.payload| < 0x1_0000
    ensures var f := Frame(m);
            && UnHalf(f[0], f[1]) == m.typ && UnHalf(f[2], f[3]) == |m.payload|
            && forall i :: 0 <= i < |m.payload| ==> f[HEADER + i] == m.payload[i]
  {
  }

  /** The wrapped counters tell the exact number of free bytes. */
  lemma FreeIs(l: Link)
    requires Shape(l) && Counters(l)
    ensures Free(l) == SIZE - (Pos(l.sent, Published(l)) - Pos(l.sent, |l.got|))
  {
    PosGrows(l.sent, |l.got|, Published(l));
    WrapDifference(Pos(l.sent, Published(l)), Pos(l.sent, |l.got|));
  }

  lemma WrapDifference(h: nat, t: nat)
    requires t <= h <= t + SIZE
    ensures (h % 0x1_0000_0000 - t % 0x1_0000_0000) % 0x1_0000_0000 == h - t
  {
  }

  lemma SlotOfWrapped(p: nat, i: nat)
    ensures Slot(p % 0x1_0000_0000) == Slot(p)
    ensures Slot(Slot(p) + i) == Slot(p + i)
  {
    WrapsEvenly(p);
    SlotAdds(p, i);
  }

  lemma WrapsEvenly(p: nat)
    ensures Slot(p % 0x1_0000_0000) == Slot(p)
  {
    var q := p / 0x1_0000_0000;
    assert p == p % 0x1_0000_0000 + SIZE * (131072 * q);
    RingPeriod(p % 0x1_0000_0000, 131072 * q, SIZE);
  }

  lemma SlotAdds(p: nat, i: nat)
    ensures Slot(Slot(p) + i) == Slot(p + i)
  {
    RingAdds(p, i, SIZE);
  }

  lemma SlotsDiffer(p: nat, q: nat)
    requires p < q < p + SIZE
    ensures Slot(p) != Slot(q)
  {
  }

  lemma PosAppendAll(sent: seq<Msg>, m: Msg)
    ensures forall k: nat :: k <= |sent| ==> Pos(sent + [m], k) == Pos(sent, k)
  {
    forall k: nat | k <= |sent|
      ensures Pos(sent + [m], k) == Pos(sent, k)
    {
      PosAppend(sent, m, k);
    }
  }

  /** Sending only appends to the log; everything already there keeps its place. */
  lemma LongerLog(l: Link, r: Link, m: Msg)
    requires Shape(l) && Shape(r) && r.sent == l.sent + [m] && l.got == r.got && Published(r) == Published(l)
    ensures l.head == r.head && l.tail == r.tail && Counters(l) ==> Counters(r)
    ensures InFlight(l) == InFlight(r) && Notices(l) ==> Notices(r)
    ensures l.buf == r.buf && Contents(l) ==> Contents(r)
    ensures l.cons == r.cons && ConsumerOk(l) ==> ConsumerOk(r)
    ensures Log(l) ==> Log(r)
  {
    PosAppendAll(l.sent, m);
    hide Need, Frame, Slot, Holds, Pos, Delivered, InFlight, Sendable;
  }

  lemma SendKeeps(l: Link, m: Msg)
    requires Inv(l) && l.prod.Idle? && Sendable(m)
    ensures Inv(Next(l, Send(m)))
  {
    var r := Next(l, Send(m));
    SendFlight(l, Send(m));
    assert Shape(r) && Published(r) == Published(l);
    hide Sendable, Counters, Notices, Contents, ConsumerOk, Log, InFlight;
    LongerLog(l, r, m);
  }

  lemma CheckKeeps(l: Link)
    requires Inv(l) && l.prod.Checking?
    ensures Inv(Next(l, Check))
  {
    FreeIs(l);
    var r := Next(l, Check);
    SendFlight(l, Check);
    hide Need, Frame, Slot, Pos, Delivered, InFlight, Free, Contents, Notices, ConsumerOk, Log;
    SameParts(l, r);
  }

  /** Parts of the invariant that only look at the logs, the counters, the buffer or the consumer. */
  lemma SameParts(l: Link, r: Link)
    requires Shape(l) && Shape(r) && Published(l) == Published(r) && l.sent == r.sent && l.got == r.got
    requires l.cons == r.cons
    ensures l.head == r.head && l.tail == r.tail && Counters(l) ==> Counters(r)
    ensures InFlight(l) == InFlight(r) && Notices(l) ==> Notices(r)
    ensures l.buf == r.buf && Contents(l) ==> Contents(r)
    ensures ConsumerOk(l) ==> ConsumerOk(r)
    ensures Log(l) ==> Log(r)
  {
    hide Need, Frame, Slot, Pos, Delivered, InFlight, Holds;
  }

  lemma HoldsKept(buf: seq<byte>, at: nat, bytes: seq<byte>, w: nat, b: byte)
    requires |buf| == SIZE && Holds(buf, at, bytes)
    requires at + |bytes| <= w < at + SIZE
    ensures Holds(buf[Slot(w) := b], at, bytes)
  {
    forall i | 0 <= i < |bytes|
      ensures buf[Slot(w) := b][Slot(at + i)] == bytes[i]
    {
      SlotsDiffer(at + i, w);
    }
  }

  /** A byte written past what is published lands on no unread byte. */
  lemma WriteSparesUnread(l: Link, w: nat, b: byte)
    requires Shape(l) && Contents(l)
    requires Pos(l.sent, Published(l)) <= w < Pos(l.sent, |l.got|) + SIZE
    ensures forall k :: |l.got| <= k < Published(l) ==>
              Holds(l.buf[Slot(w) := b], Pos(l.sent, k), Frame(l.sent[k]))
  {
    forall k | |l.got| <= k < Published(l)
      ensures Holds(l.buf[Slot(w) := b], Pos(l.sent, k), Frame(l.sent[k]))
    {
      FrameFits(l.sent[k]);
      PosGrows(l.sent, k, Published(l));
      PosGrows(l.sent, |l.got|, k);
      hide Frame, Need, Slot, Pos;
      HoldsKept(l.buf, Pos(l.sent, k), Frame(l.sent[k]), w, b);
    }
  }

  lemma WriteExtends(buf: seq<byte>, h: nat, f: seq<byte>, i: nat)
    requires |buf| == SIZE && i < |f| && |f| <= SIZE && Holds(buf, h, f[..i])
    ensures Holds(buf[Slot(h + i) := f[i]], h, f[..i + 1])
  {
    HoldsKept(buf, h, f[..i], h + i, f[i]);
    var buf1, g := buf[Slot(h + i) := f[i]], f[..i + 1];
    forall k | 0 <= k < |g|
      ensures buf1[Slot(h + k)] == g[k]
    {
      if k < i { assert f[..i][k] == g[k]; }
    }
  }

  lemma WriteByteKeeps(l: Link)
    requires Inv(l) && l.prod.Writing? && l.prod.done < HEADER + |l.prod.msg.payload|
    ensures Inv(Next(l, Write))
  {
    hide Need, Frame, Slot, Pos, Delivered, InFlight, Holds, Notices, ConsumerOk, Log, Contents, Counters, Next;
    WriteSpot(l);
    var i, h, f, r := l.prod.done, Pos(l.sent, Published(l)), Frame(l.prod.msg), Next(l, Write);
    WriteSparesUnread(l, h + i, f[i]);
    WriteExtends(l.buf, h, f, i);
    SendFlight(l, Write);
    SameParts(l, r);
    UnreadContents(l, r);
  }

  /** Where the next frame byte goes, and what the step does. */
  lemma WriteSpot(l: Link)
    requires Inv(l) && l.prod.Writing? && l.prod.done < HEADER + |l.prod.msg.payload|
    ensures var m, i, h := l.prod.msg, l.prod.done, Pos(l.sent, Published(l));
            && |m.payload| < 0x1_0000 && i < |Frame(m)| <= Need(m) && h + Need(m) - Pos(l.sent, |l.got|) <= SIZE
            && Pos(l.sent, |l.got|) <= h && |Frame(m)| <= SIZE && Holds(l.buf, h, Frame(m)[..i])
            && Next(l, Write) == l.(buf := l.buf[Slot(h + i) := Frame(m)[i]], prod := Writing(m, i + 1))
  {
    hide Inv, Slot, Pos, Holds, Need, Next, Frame;
    WriteRoom(l);
    WriteIs(l, Pos(l.sent, Published(l)));
  }

  lemma WriteRoom(l: Link)
    requires Inv(l) && l.prod.Writing? && l.prod.done < HEADER + |l.prod.msg.payload|
    ensures |l.got| <= Published(l) <= |l.sent|
    ensures var m, i, h := l.prod.msg, l.prod.done, Pos(l.sent, Published(l));
            && |l.buf| == SIZE && l.head == h % 0x1_0000_0000
            && |m.payload| < 0x1_0000 && i < |Frame(m)| <= Need(m) && h + Need(m) - Pos(l.sent, |l.got|) <= SIZE
            && Pos(l.sent, |l.got|) <= h && |Frame(m)| <= SIZE && Holds(l.buf, h, Frame(m)[..i])
  {
    hide Slot, Notices, Contents, ConsumerOk, Log, Pos, Holds, Need;
    PosGrows(l.sent, |l.got|, Published(l));
    FrameFits(l.prod.msg);
  }

  lemma WriteIs(l: Link, h: nat)
    requires |l.buf| == SIZE && l.prod.Writing? && l.prod.done < HEADER + |l.prod.msg.payload|
    requires |l.prod.msg.payload| < 0x1_0000 && l.head == h % 0x1_0000_0000
    ensures var m, i := l.prod.msg, l.prod.done;
            && i < |Frame(m)|
            && Next(l, Write) == l.(buf := l.buf[Slot(h + i) := Frame(m)[i]], prod := Writing(m, i + 1))
  {
    SlotOfWrapped(h, l.prod.done);
    hide Slot;
  }

  lemma UnreadContents(l: Link, r: Link)
    requires Shape(l) && Shape(r) && r.sent == l.sent && r.got == l.got && Published(r) == Published(l)
    requires forall k :: |l.got| <= k < Published(l) ==> Holds(r.buf, Pos(l.sent, k), Frame(l.sent[k]))
    ensures Contents(r)
  {
    hide Frame, Pos, Holds;
  }

  lemma AddWraps(p: nat, n: nat)
    ensures AddU32(p % 0x1_0000_0000, n) == (p + n) % 0x1_0000_0000
  {
  }

  /** Pushing `e` to the flight list together with publishing its message. */
  lemma NoticesGrow(l: Link, r: Link)
    requires Shape(l) && Shape(r) && Notices(l) && r.sent == l.sent && r.got == l.got
    requires Published(r) == Published(l) + 1 && InFlight(r) == InFlight(l) + [EntryOf(l.sent, Published(l))]
    ensures Notices(r)
  {
    hide InFlight, EntryOf;
  }

  lemma ContentsGrow(l: Link, r: Link)
    requires Shape(l) && Shape(r) && Contents(l) && r.sent == l.sent && r.got == l.got && r.buf == l.buf
    requires Published(r) == Published(l) + 1
    requires Holds(l.buf, Pos(l.sent, Published(l)), Frame(l.sent[Published(l)]))
    ensures Contents(r)
  {
    hide Holds, Frame, Pos;
  }

  // What each step does to the notifications under way.

  lemma SendFlight(l: Link, s: Step)
    requires |l.buf| == SIZE && (s.Send? || s.Check? || (s.Write? && l.prod.Writing? && Next(l, s).prod.Writing?))
    ensures InFlight(Next(l, s)) == InFlight(l)
  {
  }

  lemma PublishFlight(l: Link)
    requires |l.buf| == SIZE && l.prod.Writing? && Next(l, Write).prod.Notifying?
    ensures InFlight(Next(l, Write)) == InFlight(l) + [Next(l, Write).prod.entry]
  {
  }

  lemma NotifyFlight(l: Link)
    requires |l.buf| == SIZE
    ensures InFlight(Next(l, Notify)) == InFlight(l)
  {
  }

  lemma PeekFlight(l: Link)
    requires |l.buf| == SIZE
    ensures InFlight(Next(l, Peek)) == InFlight(l) && |Next(l, Peek).fifo| <= |l.fifo|
  {
    assert l.fifo != [] ==> [l.fifo[0]] + l.fifo[1..] == l.fifo;
  }

  lemma TakeEntryFlight(l: Link, max: nat)
    requires |l.buf| == SIZE && l.cons.Waiting?
    ensures var r := Next(l, Receive(max));
            && InFlight(r) == InFlight(l) && |r.fifo| <= |l.fifo|
            && r == l.(cons := r.cons, cache := r.cache, fifo := r.fifo)
            && (r == l || (r.cons.ReadingHeader? && r.cons.header == [] && |InFlight(r)| >= 1 + if l.prod.Notifying? then 1 else 0))
  {
    assert l.fifo != [] ==> [l.fifo[0]] + l.fifo[1..] == l.fifo;
  }

  lemma ReadFlight(l: Link)
    requires |l.buf| == SIZE && !l.cons.Waiting?
    ensures var r := Next(l, Read);
            && (!r.cons.Waiting? ==> InFlight(r) == InFlight(l))
            && (r.cons.Waiting? ==> InFlight(l) == [l.cons.entry] + InFlight(r))
  {
  }

  /** The head moves once the whole frame is in the ring. */
  lemma PublishKeeps(l: Link)
    requires Inv(l) && l.prod.Writing? && l.prod.done == HEADER + |l.prod.msg.payload|
    ensures Inv(Next(l, Write))
  {
    var p, r := Published(l), Next(l, Write);
    hide Need, Frame, Slot, Holds, Pos, InFlight, AddU32, Counters, Contents, Notices, ConsumerOk, Log, Sendable, EntryOf, Next;
    PublishIs(l);
    PublishFlight(l);
    PublishedParts(l, r);
    NoticesGrow(l, r);
    ContentsGrow(l, r);
  }

  /** What publishing does, in unwrapped positions. */
  lemma PublishIs(l: Link)
    requires Inv(l) && l.prod.Writing? && l.prod.done == HEADER + |l.prod.msg.payload|
    ensures var m, p := l.prod.msg, Published(l);
            && 0 <= p < |l.sent| && m == l.sent[p] && Sendable(m) && Pos(l.sent, p + 1) == Pos(l.sent, p) + Need(m)
            && Next(l, Write) == l.(head := (Pos(l.sent, p) + Need(m)) % 0x1_0000_0000, prod := Notifying(EntryOf(l.sent, p)))
            && Pos(l.sent, p + 1) - Pos(l.sent, |l.got|) <= SIZE && Holds(l.buf, Pos(l.sent, p), Frame(m))
  {
    var m, p := l.prod.msg, Published(l);
    var h := Pos(l.sent, p);
    assert Sendable(m) && m == l.sent[p];
    AddWraps(h, Need(m));
    WrapsEvenly(h);
    assert Frame(m)[..l.prod.done] == Frame(m);
    hide Need, Frame, Slot, Holds, InFlight, AddU32, Contents, Notices, ConsumerOk, Log;
  }

  lemma PublishedParts(l: Link, r: Link)
    requires Shape(l) && Counters(l) && ConsumerOk(l) && Log(l) && 0 <= Published(l) < |l.sent|
    requires r.head == Pos(l.sent, Published(l) + 1) % 0x1_0000_0000
    requires Pos(l.sent, Published(l) + 1) - Pos(l.sent, |l.got|) <= SIZE
    requires r == l.(head := r.head, prod := r.prod) && l.prod.Writing? && r.prod.Notifying?
    ensures Shape(r) && Counters(r) && ConsumerOk(r) && Log(r) && Published(r) == Published(l) + 1
  {
    hide Need, Frame, Slot, Holds, Pos, InFlight, AddU32, Delivered, Sendable;
  }

  lemma NotifyKeeps(l: Link)
    requires Inv(l) && l.prod.Notifying?
    ensures Inv(Next(l, Notify))
  {
    var r := Next(l, Notify);
    NotifyFlight(l);
    hide Need, Frame, Slot, Pos, Delivered, InFlight, Sendable, Counters, Notices, Contents, ConsumerOk, Log;
    SameParts(l, r);
  }

  /** The consumer at work: everything but its own position stands as it was. */
  lemma ConsumerOnly(l: Link, r: Link)
    requires Inv(l) && r == l.(cons := r.cons, cache := r.cache, fifo := r.fifo)
    requires |r.fifo| <= FIFO_SLOTS && InFlight(r) == InFlight(l)
    ensures Shape(r) && Published(r) == Published(l)
    ensures Counters(r) && Notices(r) && Contents(r) && ProducerOk(r) && Log(r)
  {
    hide Need, Frame, Slot, Pos, Delivered, InFlight, Holds, EntryOf, Sendable;
  }

  lemma PeekKeeps(l: Link)
    requires Inv(l) && l.cons.Waiting?
    ensures Inv(Next(l, Peek)) && InFlight(Next(l, Peek)) == InFlight(l)
  {
    PeekFlight(l);
    assert |l.fifo| <= FIFO_SLOTS;
    hide InFlight, Counters, Notices, Contents, ProducerOk, Log;
    ConsumerOnly(l, Next(l, Peek));
  }

  lemma ReceiveKeeps(l: Link, max: nat)
    requires Inv(l) && l.cons.Waiting?
    ensures Inv(Next(l, Receive(max)))
  {
    var r := Next(l, Receive(max));
    TakeEntryFlight(l, max);
    assert |l.fifo| <= FIFO_SLOTS;
    hide Need, Frame, Pos, InFlight, TakeEntry;
    ConsumerOnly(l, r);
    hide Counters, Contents, ProducerOk, Log;
  }

  /** The consumer's entry is the oldest unread message, whose frame lies in the ring. */
  lemma InHand(l: Link)
    requires Inv(l) && !l.cons.Waiting?
    ensures |l.got| < Published(l) && l.cons.entry == EntryOf(l.sent, |l.got|)
    ensures Holds(l.buf, Pos(l.sent, |l.got|), Frame(l.sent[|l.got|]))
  {
    assert InFlight(l)[0] == l.cons.entry;
    hide Need, Frame, Slot, Pos, Delivered, Sendable, Holds;
  }

  /** The byte `i` of the frame in hand, as the ring shows it. */
  lemma ByteInHand(l: Link, i: nat)
    requires Inv(l) && !l.cons.Waiting? && |l.got| < Published(l) && i < HEADER + |l.sent[|l.got|].payload|
    ensures |l.sent[|l.got|].payload| < 0x1_0000
    ensures l.buf[Slot(l.cons.entry.off + i)] == Frame(l.sent[|l.got|])[i]
  {
    var at := Pos(l.sent, |l.got|);
    InHand(l);
    assert Sendable(l.sent[|l.got|]);
    SlotAdds(at, i);
    hide Need, Frame, Slot, Pos, InFlight, Counters, Notices, Contents, ProducerOk, Log;
  }

  lemma ReadHeaderKeeps(l: Link)
    requires Inv(l) && l.cons.ReadingHeader? && |l.cons.header| < HEADER
    ensures Inv(Next(l, Read))
  {
    var r, m, i := Next(l, Read), l.sent[|l.got|], |l.cons.header|;
    ByteInHand(l, i);
    assert Frame(m)[..i + 1] == Frame(m)[..i] + [Frame(m)[i]];
    assert |l.fifo| <= FIFO_SLOTS && r.cons.ReadingHeader? && r.cons.header == Frame(m)[..i + 1];
    ReadFlight(l);
    hide Need, Frame, Pos, InFlight, Slot, Holds;
    ConsumerOnly(l, r);
    hide Counters, Notices, Contents, ProducerOk, Log;
  }

  /** The type in the ring is the type in the notification: the mismatch branch is never taken. */
  lemma HeaderMatches(l: Link)
    requires Inv(l) && l.cons.ReadingHeader? && |l.cons.header| == HEADER
    ensures var m := l.sent[|l.got|];
            && UnHalf(l.cons.header[0], l.cons.header[1]) == l.cons.entry.typ == m.typ
            && UnHalf(l.cons.header[2], l.cons.header[3]) == |m.payload|
    ensures Inv(Next(l, Read)) && Next(l, Read).cons.Copying?
  {
    var r, m, h := Next(l, Read), l.sent[|l.got|], l.cons.header;
    InHand(l);
    assert Sendable(m) && |l.fifo| <= FIFO_SLOTS;
    FrameReads(m);
    assert h == Frame(m)[..HEADER];
    assert h[0] == Frame(m)[0] && h[1] == Frame(m)[1] && h[2] == Frame(m)[2] && h[3] == Frame(m)[3];
    assert r == l.(cons := Copying(l.cons.entry, m.typ, |m.payload|, l.cons.max, []));
    ReadFlight(l);
    hide InFlight;
    ConsumerOnly(l, r);
    assert ConsumerOk(r) by { hide Need, Frame, Pos, InFlight, Counters, Notices, Contents, ProducerOk, Log; }
    hide Shape, Counters, Notices, Contents, ProducerOk, ConsumerOk, Log, Frame, Pos;
  }

  lemma PayloadInHand(l: Link, i: nat)
    requires Inv(l) && !l.cons.Waiting? && |l.got| < Published(l) && i < |l.sent[|l.got|].payload|
    ensures l.buf[Slot(l.cons.entry.off + HEADER + i)] == l.sent[|l.got|].payload[i]
  {
    ByteInHand(l, HEADER + i);
    hide Inv, Slot;
    FrameReads(l.sent[|l.got|]);
  }

  lemma CopyKeeps(l: Link)
    requires Inv(l) && l.cons.Copying? && |l.cons.bytes| < Min(l.cons.length, l.cons.max)
    ensures Inv(Next(l, Read))
  {
    var r, m, i := Next(l, Read), l.sent[|l.got|], |l.cons.bytes|;
    PayloadInHand(l, i);
    assert m.payload[..i + 1] == m.payload[..i] + [m.payload[i]];
    ReadFlight(l);
    assert |l.fifo| <= FIFO_SLOTS && r.cons == Copying(l.cons.entry, m.typ, |m.payload|, l.cons.max, m.payload[..i + 1]);
    hide Need, Frame, Pos, InFlight, Slot, Holds;
    ConsumerOnly(l, r);
    hide Counters, Notices, Contents, ProducerOk, Log;
  }

  lemma NoticesShrink(l: Link, r: Link)
    requires Shape(l) && Shape(r) && Notices(l) && r.sent == l.sent && |r.got| == |l.got| + 1
    requires !l.cons.Waiting? && Published(r) == Published(l) && InFlight(l) == [l.cons.entry] + InFlight(r)
    ensures Notices(r)
  {
    hide InFlight, EntryOf;
    assert forall k :: 0 <= k < |InFlight(r)| ==> InFlight(r)[k] == InFlight(l)[k + 1];
  }

  lemma FinishRest(l: Link, r: Link)
    requires Inv(l) && Shape(r) && r.sent == l.sent && r.prod == l.prod && r.buf == l.buf && r.head == l.head
    requires |r.got| == |l.got| + 1 && r.got[..|l.got|] == l.got && |l.got| < Published(l)
    requires Delivered(r.got[|l.got|], l.sent[|l.got|])
    requires Pos(l.sent, |l.got|) <= Pos(l.sent, |r.got|) <= Pos(l.sent, Published(l))
    ensures Contents(r) && ProducerOk(r) && Log(r)
  {
    hide Need, Frame, Slot, Pos, Delivered, InFlight, Holds, EntryOf, Sendable, Notices, Counters;
    forall k | 0 <= k < |r.got|
      ensures Delivered(r.got[k], r.sent[k])
    {
      if k < |l.got| { assert r.got[k] == l.got[k]; }
    }
  }

  lemma FinishCounters(l: Link, r: Link)
    requires Shape(l) && Counters(l) && Shape(r) && r.sent == l.sent && r.head == l.head
    requires Published(r) == Published(l) && |r.got| == |l.got| + 1
    requires r.tail == AddU32(l.tail, Need(l.sent[|l.got|]))
    ensures Counters(r)
    ensures Pos(l.sent, |l.got|) <= Pos(l.sent, |r.got|) <= Pos(l.sent, Published(l))
  {
    var g := |l.got|;
    AddWraps(Pos(l.sent, g), Need(l.sent[g]));
    PosGrows(l.sent, g + 1, Published(l));
    assert Pos(l.sent, g + 1) == Pos(l.sent, g) + Need(l.sent[g]);
    hide AddU32, Need, Sendable;
  }

  /** The whole advertised length is freed, also when the caller's buffer was smaller. */
  lemma FinishKeeps(l: Link)
    requires Inv(l) && l.cons.Copying? && |l.cons.bytes| >= Min(l.cons.length, l.cons.max)
    ensures Inv(Next(l, Read))
  {
    var r, g := Next(l, Read), |l.got|;
    var m := l.sent[g];
    ReadFlight(l);
    hide InFlight;
    assert Delivered(r.got[g], m);
    assert r.got[..g] == l.got;
    assert r == l.(tail := AddU32(l.tail, Need(m)), cons := Waiting, got := r.got);
    hide Frame, Slot, Pos, Delivered, InFlight, Holds, AddU32, Need, Sendable;
    assert Shape(r) && Published(r) == Published(l) && ConsumerOk(r);
    hide Shape, Counters, Notices, Contents, Log, ProducerOk, ConsumerOk;
    FinishCounters(l, r);
    NoticesShrink(l, r);
    FinishRest(l, r);
  }

  lemma NextKeeps(l: Link, s: Step)
    requires Inv(l)
    ensures Inv(Next(l, s))
  {
    hide Counters, Notices, Contents, Log, Frame, Slot, Need, Pos;
    match (l.prod, l.cons, s)
    case (Idle, _, Send(m)) => if Sendable(m) { SendKeeps(l, m); }
    case (Checking(_), _, Check) => CheckKeeps(l);
    case (Writing(m, i), _, Write) =>
      assert i <= HEADER + |m.payload|;
      if i < HEADER + |m.payload| { WriteByteKeeps(l); } else { PublishKeeps(l); }
    case (Notifying(_), _, Notify) => NotifyKeeps(l);
    case (_, Waiting, Peek) => PeekKeeps(l);
    case (_, Waiting, Receive(max)) => ReceiveKeeps(l, max);
    case (_, ReadingHeader(_, _, h), Read) =>
      if |h| < HEADER { ReadHeaderKeeps(l); } else { HeaderMatches(l); }
    case (_, Copying(_, _, len, max, bs), Read) =>
      if |bs| < Min(len, max) { CopyKeeps(l); } else { FinishKeeps(l); }
    case _ => assert Next(l, s) == l;
  }

  lemma StartOk(buf: seq<byte>)
    requires |buf| == SIZE
    ensures Inv(Start(buf))
  {
  }

  /** Every state of every interleaving satisfies the invariant. */
  lemma {:induction false} RunKeeps(buf: seq<byte>, steps: seq<Step>)
    requires |buf| == SIZE
    ensures Inv(Run(Start(buf), steps))
    decreases |steps|
  {
    hide Inv, Next;
    if steps == [] {
      StartOk(buf);
    } else {
      RunKeeps(buf, steps[..|steps| - 1]);
      NextKeeps(Run(Start(buf), steps[..|steps| - 1]), steps[|steps| - 1]);
    }
  }

  lemma CountersBound(l: Link)
    requires Shape(l) && Counters(l)
    ensures (l.head - l.tail) % 0x1_0000_0000 <= SIZE
  {
    PosGrows(l.sent, |l.got|, Published(l));
    WrapDifference(Pos(l.sent, Published(l)), Pos(l.sent, |l.got|));
  }

  /**
   In every interleaving: what was received is a prefix of what was sent, message by message (type,
   length, and the bytes the caller had room for), the mismatch branch was never taken, and the
   counters, wrapped or not, never differ by more than the ring size.
   */
  lemma ReceivedIsPrefixOfSent(buf: seq<byte>, steps: seq<Step>)
    requires |buf| == SIZE
    ensures var l := Run(Start(buf), steps);
            && |l.got| <= |l.sent|
            && (forall k :: 0 <= k < |l.got| ==> Delivered(l.got[k], l.sent[k]))
            && l.mismatches == 0
            && (l.head - l.tail) % 0x1_0000_0000 <= SIZE
  {
    RunKeeps(buf, steps);
    hide Run, Counters, Notices, Contents, ProducerOk, ConsumerOk, Sendable, Delivered;
    CountersBound(Run(Start(buf), steps));
  }

  /** Unwrapped position `p` lies between the consumer's counter and the producer's. */
  ghost predicate Unread(l: Link, p: nat) {
    && |l.got| <= Published(l) <= |l.sent|
    && Pos(l.sent, |l.got|) <= p < Pos(l.sent, Published(l))
  }

  /** Unwrapped position of the byte the producer writes next. */
  function Target(l: Link): nat {
    if l.prod.Writing? && 0 <= Published(l) <= |l.sent| then Pos(l.sent, Published(l)) + l.prod.done else 0
  }

  /** The only shared byte a step can touch is the producer's next frame byte, past everything published. */
  lemma WriteTarget(l: Link, s: Step, p: nat, w: nat)
    requires Inv(l) && Unread(l, p) && Next(l, s).buf != l.buf && w == Target(l)
    ensures p < w < p + SIZE && Next(l, s).buf == l.buf[Slot(w) := Next(l, s).buf[Slot(w)]]
  {
    BufChanger(l, s);
    hide Inv, Next, Pos, Frame, Need, Slot;
    WriteSpot(l);
  }

  /** Only a frame byte being written changes the buffer. */
  lemma BufChanger(l: Link, s: Step)
    requires |l.buf| == SIZE && Next(l, s).buf != l.buf
    ensures s.Write? && l.prod.Writing? && l.prod.done < HEADER + |l.prod.msg.payload|
  {
    hide Slot, Frame;
  }

  lemma StepSparesUnread(l: Link, s: Step, p: nat)
    requires Inv(l) && Unread(l, p)
    ensures Next(l, s).buf[Slot(p)] == l.buf[Slot(p)]
  {
    assert |l.buf| == SIZE;
    hide Inv, Unread, Next, Slot;
    if Next(l, s).buf != l.buf {
      WriteTarget(l, s, p, Target(l));
      SlotsDiffer(p, Target(l));
    }
  }

  /** No step of either core, in any interleaving, changes a byte between the two counters. */
  lemma UnreadBytesStand(buf: seq<byte>, steps: seq<Step>, s: Step, p: nat)
    requires |buf| == SIZE && Unread(Run(Start(buf), steps), p)
    ensures var l := Run(Start(buf), steps); Next(l, s).buf[Slot(p)] == l.buf[Slot(p)]
  {
    hide Run, Inv, Next, Unread, Slot;
    RunKeeps(buf, steps);
    StepSparesUnread(Run(Start(buf), steps), s, p);
  }

  // ---- A send announced by ic_send_avail never waits ----

  /** The next producer step would find no room and spin. */
  predicate Waits(l: Link, s: Step) {
    || (s.Check? && l.prod.Checking? && Free(l) < Need(l.prod.msg))
    || (s.Notify? && l.prod.Notifying? && |l.fifo| >= FIFO_SLOTS)
  }

  /** Room for `m`'s bytes and its notification, at whatever point of sending it the producer is. */
  ghost predicate Reserved(l: Link, m: Msg) {
    match l.prod
    case Idle => Avail(l) >= Need(m)
    case Checking(x) => x == m && Free(l) >= Need(m) && |l.fifo| < FIFO_SLOTS
    case Writing(x, _) => x == m && |l.fifo| < FIFO_SLOTS
    case Notifying(_) => |l.fifo| < FIFO_SLOTS
  }

  predicate IsConsumer(s: Step) { s.Peek? || s.Receive? || s.Read? }

  lemma ConsumerTouches(l: Link, s: Step)
    requires |l.buf| == SIZE && IsConsumer(s)
    ensures var r := Next(l, s);
            && r.prod == l.prod && r.sent == l.sent && r.head == l.head
            && |r.fifo| <= |l.fifo| && |r.got| >= |l.got|
  {
    hide Slot, AddU32, UnHalf;
  }

  lemma MoreFreed(l: Link, r: Link)
    requires Shape(l) && Shape(r) && Counters(l) && Counters(r)
    requires r.sent == l.sent && r.prod == l.prod && |r.got| >= |l.got|
    ensures Free(r) >= Free(l)
  {
    FreeIs(l);
    FreeIs(r);
    hide Free;
    PosGrows(l.sent, |l.got|, |r.got|);
  }

  /** The consumer only ever makes room. */
  lemma ConsumerMakesRoom(l: Link, s: Step)
    requires Inv(l) && IsConsumer(s)
    ensures var r := Next(l, s);
            r.prod == l.prod && |r.fifo| <= |l.fifo| && Free(r) >= Free(l)
  {
    ConsumerTouches(l, s);
    NextKeeps(l, s);
    hide Next, Counters, Notices, Contents, ProducerOk, ConsumerOk, Log, Free;
    MoreFreed(l, Next(l, s));
  }

  lemma ReservedHolds(l: Link, m: Msg, s: Step)
    requires Inv(l) && Reserved(l, m) && (s.Send? ==> s.msg == m)
    ensures !Waits(l, s)
    ensures !(l.prod.Notifying? && s.Notify?) ==> Reserved(Next(l, s), m)
  {
    if IsConsumer(s) { ConsumerMakesRoom(l, s); }
    hide Inv, Free, Need, Frame;
  }

  /** The send of the run is over: a notification has gone out. */
  predicate SentOff(l: Link, steps: seq<Step>, n: nat)
    requires |l.buf| == SIZE && n <= |steps|
  {
    exists i :: 0 <= i < n && steps[i].Notify? && Run(l, steps[..i]).prod.Notifying?
  }

  /**
   If the core found room for `m` before the call, its next send of a message of that size never
   waits, on the ring or on the FIFO, whatever the other core does in between.
   */
  lemma {:induction false} AvailMeansNoWait(l: Link, m: Msg, steps: seq<Step>, n: nat)
    requires Inv(l) && l.prod.Idle? && Avail(l) >= Need(m)
    requires n < |steps| && forall i :: 0 <= i <= n && steps[i].Send? ==> steps[i].msg == m
    requires !SentOff(l, steps, n)
    ensures Inv(Run(l, steps[..n])) && Reserved(Run(l, steps[..n]), m)
    ensures !Waits(Run(l, steps[..n]), steps[n])
    decreases n
  {
    if n > 0 {
      assert !SentOff(l, steps, n - 1);
      AvailMeansNoWait(l, m, steps, n - 1);
      var p := Run(l, steps[..n - 1]);
      assert steps[..n][..n - 1] == steps[..n - 1];
      NextKeeps(p, steps[n - 1]);
      assert !(p.prod.Notifying? && steps[n - 1].Notify?);
      hide Inv, Next, Waits, Reserved;
      ReservedHolds(p, m, steps[n - 1]);
    }
    ReservedHolds(Run(l, steps[..n]), m, steps[n]);
  }

  /** Nothing is lost: with both cores at rest and no notification under way, everything sent was received. */
  lemma QuietMeansAllReceived(buf: seq<byte>, steps: seq<Step>)
    requires |buf| == SIZE
    requires var l := Run(Start(buf), steps); l.prod.Idle? && l.cons.Waiting? && l.cache.None? && l.fifo == []
    ensures var l := Run(Start(buf), steps); |l.got| == |l.sent|
  {
    RunKeeps(buf, steps);
    hide Run, Counters, Contents, ProducerOk, ConsumerOk, Log, Sendable;
  }

  // ---- What is announced, and what is in the ring ----

  /** Ring bytes of the messages published and not yet received: a four-byte header each, the payload in whole words. */
  function Occupied(l: Link): nat
    requires |l.got| <= Published(l) <= |l.sent|
  {
    RingBytes(l.sent[|l.got|..Published(l)])
  }

  function RingBytes(ms: seq<Msg>): nat { if ms == [] then 0 else 4 + (|ms[0].payload| + 3) / 4 * 4 + RingBytes(ms[1..]) }

  lemma {:induction false} PosIsBytes(sent: seq<Msg>, a: nat, b: nat)
    requires a <= b <= |sent|
    ensures Pos(sent, b) - Pos(sent, a) == RingBytes(sent[a..b])
    decreases b - a
  {
    if a < b {
      PosIsBytes(sent, a + 1, b);
      assert sent[a..b][1..] == sent[a + 1..b];
    }
  }

  /**
   The room announced is all there is, or none with eight notifications queued; a send starts writing
   exactly if it fits, and is notified exactly if fewer are queued.
   */
  lemma AvailIsRoom(l: Link)
    requires Inv(l)
    ensures Occupied(l) <= 32768 && Avail(l) == if |l.fifo| == 8 then 0 else 32768 - Occupied(l)
    ensures l.prod.Checking? ==>
              (Next(l, Check).prod.Writing? <==> 4 + (|l.prod.msg.payload| + 3) / 4 * 4 <= 32768 - Occupied(l))
    ensures l.prod.Notifying? ==> (Next(l, Notify).prod.Idle? <==> |l.fifo| < 8)
  {
    FreeIs(l);
    PosIsBytes(l.sent, |l.got|, Published(l));
    PosGrows(l.sent, |l.got|, Published(l));
    hide Free, Contents, Notices, ProducerOk, ConsumerOk, Log;
  }

  /** The bytes of every message published and not yet received: type and length, low byte first, then the payload. */
  lemma UnreadLayout(l: Link, k: nat)
    requires Inv(l) && |l.got| <= k < Published(l)
    ensures |l.buf| == SIZE && k < |l.sent|
    ensures var at, m := RingBytes(l.sent[..k]), l.sent[k];
            && l.buf[at % 32768] == m.typ % 256 && l.buf[(at + 1) % 32768] == m.typ / 256
            && l.buf[(at + 2) % 32768] == |m.payload| % 256 && l.buf[(at + 3) % 32768] == |m.payload| / 256
            && forall i :: 0 <= i < |m.payload| ==> l.buf[(at + 4 + i) % 32768] == m.payload[i]
  {
    hide Inv, Holds, Frame, Pos, RingBytes;
    PublishedHeld(l, k);
    PosIsBytes(l.sent, 0, k);
    assert l.sent[0..k] == l.sent[..k];
    FirstAtZero(l.sent);
    HeldBytes(l.buf, RingBytes(l.sent[..k]), l.sent[k]);
  }

  lemma FirstAtZero(sent: seq<Msg>)
    ensures Pos(sent, 0) == 0
  {
  }

  lemma PublishedHeld(l: Link, k: nat)
    requires Inv(l) && |l.got| <= k < Published(l)
    ensures |l.buf| == SIZE && k < |l.sent| && |l.sent[k].payload| < 0x1_0000 && Holds(l.buf, Pos(l.sent, k), Frame(l.sent[k]))
  {
    hide Notices, ProducerOk, ConsumerOk, Log, Counters, Holds, Frame, Pos;
    assert Sendable(l.sent[k]);
  }

  lemma HeldBytes(buf: seq<byte>, at: nat, m: Msg)
    requires |buf| == SIZE && |m.payload| < 0x1_0000 && Holds(buf, at, Frame(m))
    ensures buf[at % 32768] == m.typ % 256 && buf[(at + 1) % 32768] == m.typ / 256
    ensures buf[(at + 2) % 32768] == |m.payload| % 256 && buf[(at + 3) % 32768] == |m.payload| / 256
    ensures forall i :: 0 <= i < |m.payload| ==> buf[(at + 4 + i) % 32768] == m.payload[i]
  {
    var f := Frame(m);
    assert buf[Slot(at + 0)] == f[0] && buf[Slot(at + 1)] == f[1] && buf[Slot(at + 2)] == f[2] && buf[Slot(at + 3)] == f[3];
    forall i | 0 <= i < |m.payload| ensures buf[(at + 4 + i) % 32768] == m.payload[i] {
      assert buf[Slot(at + (4 + i))] == f[4 + i];
    }
  }
}
